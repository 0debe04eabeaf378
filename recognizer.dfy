/** The text recognizer's arithmetic around the encoder-decoder network:
    clamping a detected region to a crop of the page, filling the planar
    input buffer, choosing tokens greedily and turning them into text. */
module Recognizer {
  import opened Numeric
  import opened Detector

  datatype Option<T> = None | Some(value: T)

  /** Side of the square recognizer input the crop is scaled to. */
  const OcrInputSize: nat := 224
  const BosToken: int := 2
  const EosToken: int := 3
  /** Ids below this one are special tokens that never reach the text. */
  const FirstRealToken: int := 5
  const MaxDecodeLength: nat := 40

  // ---------------------------------------------------------------------
  // Crop rectangle

  /** A crop of the page: top-left corner and size, in whole pixels. */
  datatype CropRect = CropRect(x: int, y: int, width: int, height: int)

  /** Truncates a region corner onto the pixel grid and clamps it into
      `[0, dim - 1]`. */
  function GridCoord(v: real, dim: int): (c: int)
    requires 1 <= dim
    ensures 0 <= c < dim
    ensures 0.0 <= v < dim as real ==> c as real <= v < c as real + 1.0
    ensures v < 1.0 ==> c == 0
    ensures dim as real <= v ==> c == dim - 1
  {
    ClampInt(Trunc(v), 0, dim - 1)
  }

  /** The crop `recognize` cuts out of a `width` x `height` bitmap for
      `region`. Clamping into an empty range throws, so a bitmap without
      pixels yields no crop. */
  function CropFor(region: TextRegion, width: int, height: int): (crop: Option<CropRect>)
    ensures crop.None? <==> width < 1 || height < 1
    ensures crop.Some? ==>
              0 <= crop.value.x && 1 <= crop.value.width && crop.value.x + crop.value.width <= width &&
              0 <= crop.value.y && 1 <= crop.value.height && crop.value.y + crop.value.height <= height
    ensures crop.Some? && 0.0 <= region.x1 < width as real ==> crop.value.x == Trunc(region.x1)
    ensures crop.Some? && 0.0 <= region.y1 < height as real ==> crop.value.y == Trunc(region.y1)
    ensures crop.Some? ==>
              var x1, x2 := GridCoord(region.x1, width), GridCoord(region.x2, width);
              crop.value.x == x1 && crop.value.width == (if x2 - x1 >= 1 then x2 - x1 else 1)
    ensures crop.Some? ==>
              var y1, y2 := GridCoord(region.y1, height), GridCoord(region.y2, height);
              crop.value.y == y1 && crop.value.height == (if y2 - y1 >= 1 then y2 - y1 else 1)
  {
    if width < 1 || height < 1 then None
    else
      var x1, y1 := GridCoord(region.x1, width), GridCoord(region.y1, height);
      var x2, y2 := GridCoord(region.x2, width), GridCoord(region.y2, height);
      Some(CropRect(x1, y1, if x2 - x1 >= 1 then x2 - x1 else 1, if y2 - y1 >= 1 then y2 - y1 else 1))
  }

  /** A region whose corners fall on distinct pixels inside the bitmap is
      cut exactly between the pixels its corners fall on. */
  lemma CropInsideBitmap(region: TextRegion, width: int, height: int)
    requires 0.0 <= region.x1 && region.x2 < width as real && 0.0 <= region.y1 && region.y2 < height as real
    requires Trunc(region.x1) < Trunc(region.x2) && Trunc(region.y1) < Trunc(region.y2)
    ensures CropFor(region, width, height)
            == Some(CropRect(Trunc(region.x1), Trunc(region.y1),
                             Trunc(region.x2) - Trunc(region.x1), Trunc(region.y2) - Trunc(region.y1)))
  {
  }

  /** A region collapsed onto one pixel column and row still gets a 1 x 1
      crop. */
  lemma CropDegenerateExample()
    ensures CropFor(TextRegion(0.0, 270.0, 0.0, 370.0, 0.9), 640, 640) == Some(CropRect(0, 270, 1, 100))
    ensures CropFor(TextRegion(700.5, 10.0, 900.0, 10.9, 0.9), 640, 480) == Some(CropRect(639, 10, 1, 1))
  {
    assert Trunc(700.5) == 700 && Trunc(900.0) == 900 && Trunc(10.9) == 10;
  }

  // ---------------------------------------------------------------------
  // Input buffer

  /** Maps a colour byte from [0, 255] onto [-1, 1]: `(b / 255 - 0.5) / 0.5`. */
  function Normalize(b: int): (v: real)
    requires 0 <= b < 256
    ensures -1.0 <= v <= 1.0
  {
    (b as real / 255.0 - 0.5) / 0.5
  }

  /** Normalization loses nothing: the byte is recovered from its value,
      0 maps to -1 and 255 to 1. */
  lemma NormalizeRoundTrip(b: int)
    requires 0 <= b < 256
    ensures (Normalize(b) * 0.5 + 0.5) * 255.0 == b as real
    ensures b == 0 <==> Normalize(b) == -1.0
    ensures b == 255 <==> Normalize(b) == 1.0
  {
  }

  /** What the recognizer input holds for pixel `i` in plane `c` (0 = R,
      1 = G, 2 = B): the normalized channel for a given pixel and the
      array's initial zero beyond the pixels. */
  function OcrValue(pixels: seq<Int32>, c: nat, i: int): (v: real)
    requires c < 3 && 0 <= i
    ensures -1.0 <= v <= 1.0
  {
    if i < |pixels| then Normalize(Channel(pixels[i], c)) else 0.0
  }

  /** What plane `c` holds for pixel `i` once the first `n` pixels have
      been written: the pixel's value if it is among them, zero otherwise. */
  function Staged(pixels: seq<Int32>, c: nat, i: int, n: int): real
    requires c < 3 && 0 <= i
  {
    if i < n then OcrValue(pixels, c, i) else 0.0
  }

  /** The first `n` pixels of the planar buffer `v` hold their values in
      all three planes, and the rest of the buffer is still zero. */
  ghost predicate OcrFilledUpTo(v: seq<real>, pixels: seq<Int32>, planeSize: nat, n: int)
    requires |v| == 3 * planeSize
  {
    forall i :: 0 <= i < planeSize ==>
      v[i] == Staged(pixels, 0, i, n) &&
      v[planeSize + i] == Staged(pixels, 1, i, n) &&
      v[2 * planeSize + i] == Staged(pixels, 2, i, n)
  }

  /** Writing pixel `i0`'s three values extends the filled prefix by one. */
  lemma OcrFillStep(before: seq<real>, after: seq<real>, pixels: seq<Int32>, planeSize: nat, i0: nat)
    requires i0 < planeSize && |before| == 3 * planeSize && |after| == 3 * planeSize
    requires OcrFilledUpTo(before, pixels, planeSize, i0)
    requires after[i0] == OcrValue(pixels, 0, i0)
    requires after[planeSize + i0] == OcrValue(pixels, 1, i0)
    requires after[2 * planeSize + i0] == OcrValue(pixels, 2, i0)
    requires forall k ::
               0 <= k < 3 * planeSize && k != i0 && k != planeSize + i0 && k != 2 * planeSize + i0
               ==> after[k] == before[k]
    ensures OcrFilledUpTo(after, pixels, planeSize, i0 + 1)
  {
    var n := i0 + 1;
    forall i | 0 <= i < planeSize
      ensures after[i] == Staged(pixels, 0, i, n) &&
              after[planeSize + i] == Staged(pixels, 1, i, n) &&
              after[2 * planeSize + i] == Staged(pixels, 2, i, n)
    {
      if i != i0 {
        assert before[i] == Staged(pixels, 0, i, i0);
        assert before[planeSize + i] == Staged(pixels, 1, i, i0);
        assert before[2 * planeSize + i] == Staged(pixels, 2, i, i0);
        assert after[i] == before[i];
        assert after[planeSize + i] == before[planeSize + i];
        assert after[2 * planeSize + i] == before[2 * planeSize + i];
      }
    }
  }

  /** The recognizer input for `pixels`: the red plane, then the green,
      then the blue, each holding `planeSize` values. */
  function OcrPlanes(pixels: seq<Int32>, planeSize: nat): (planes: seq<real>)
    ensures |planes| == 3 * planeSize
  {
    seq(planeSize, i requires 0 <= i < planeSize => OcrValue(pixels, 0, i)) +
    seq(planeSize, i requires 0 <= i < planeSize => OcrValue(pixels, 1, i)) +
    seq(planeSize, i requires 0 <= i < planeSize => OcrValue(pixels, 2, i))
  }

  /** Planar layout: pixel `i`'s red, green and blue values sit one plane
      apart, at `i`, `planeSize + i` and `2 * planeSize + i`. */
  lemma OcrPlanesLayout(pixels: seq<Int32>, planeSize: nat, i: nat)
    requires i < planeSize
    ensures OcrPlanes(pixels, planeSize)[i] == OcrValue(pixels, 0, i)
    ensures OcrPlanes(pixels, planeSize)[planeSize + i] == OcrValue(pixels, 1, i)
    ensures OcrPlanes(pixels, planeSize)[2 * planeSize + i] == OcrValue(pixels, 2, i)
  {
  }

  /** `preprocessOcrPixels`: the planar `3 x width x height` input. Writing
      the blue plane is only in bounds when there are no more pixels than a
      plane holds. */
  method PreprocessOcrPixels(pixels: seq<Int32>, width: int, height: int) returns (floats: array<real>)
    requires |pixels| <= width * height
    ensures fresh(floats) && floats[..] == OcrPlanes(pixels, width * height)
  {
    var planeSize: nat := width * height;
    floats := new real[3 * planeSize](_ => 0.0);
    OcrFillInit(floats[..], pixels, planeSize);
    FillPlanes(floats, pixels, planeSize);
    OcrFillTail(floats[..], pixels, planeSize);
  }

  /** The loop of `preprocessOcrPixels` over the pixels of a zeroed
      buffer. */
  method FillPlanes(floats: array<real>, pixels: seq<Int32>, planeSize: nat)
    requires |pixels| <= planeSize && floats.Length == 3 * planeSize
    requires OcrFilledUpTo(floats[..], pixels, planeSize, 0)
    modifies floats
    ensures OcrFilledUpTo(floats[..], pixels, planeSize, |pixels|)
  {
    for i := 0 to |pixels|
      invariant OcrFilledUpTo(floats[..], pixels, planeSize, i)
    {
      ghost var before := floats[..];
      var p := pixels[i];
      floats[i] := (Red(p) as real / 255.0 - 0.5) / 0.5;
      floats[planeSize + i] := (Green(p) as real / 255.0 - 0.5) / 0.5;
      floats[2 * planeSize + i] := (Blue(p) as real / 255.0 - 0.5) / 0.5;
      OcrFillStep(before, floats[..], pixels, planeSize, i);
    }
  }

  /** A zeroed buffer has nothing filled yet. */
  lemma OcrFillInit(v: seq<real>, pixels: seq<Int32>, planeSize: nat)
    requires |v| == 3 * planeSize && forall k :: 0 <= k < |v| ==> v[k] == 0.0
    ensures OcrFilledUpTo(v, pixels, planeSize, 0)
  {
  }

  /** Past the last pixel the expected value is the initial zero, so a
      buffer filled for every pixel is the whole input. */
  lemma OcrFillTail(v: seq<real>, pixels: seq<Int32>, planeSize: nat)
    requires |pixels| <= planeSize && |v| == 3 * planeSize
    requires OcrFilledUpTo(v, pixels, planeSize, |pixels|)
    ensures v == OcrPlanes(pixels, planeSize)
  {
    var n, planes := |pixels|, OcrPlanes(pixels, planeSize);
    forall k | 0 <= k < 3 * planeSize
      ensures v[k] == planes[k]
    {
      if k < planeSize {
        assert v[k] == Staged(pixels, 0, k, n);
      } else if k < 2 * planeSize {
        var i := k - planeSize;
        assert v[planeSize + i] == Staged(pixels, 1, i, n);
      } else {
        var i := k - 2 * planeSize;
        assert v[2 * planeSize + i] == Staged(pixels, 2, i, n);
      }
    }
  }

  /** An opaque pure red pixel becomes (1, -1, -1). */
  lemma PureRedExample()
    ensures OcrPlanes([0xFFFF0000 - 0x1_0000_0000], 1) == [1.0, -1.0, -1.0]
  {
    var p: Int32 := 0xFFFF0000 - 0x1_0000_0000;
    assert Red(p) == 255 && Green(p) == 0 && Blue(p) == 0;
  }

  /** Red, green, blue and white pixels of a 2 x 2 image: the four red
      values come first, then the four green, then the four blue. */
  lemma ChwLayoutExample()
    ensures OcrPlanes([0xFFFF0000 - 0x1_0000_0000, 0xFF00FF00 - 0x1_0000_0000,
                       0xFF0000FF - 0x1_0000_0000, 0xFFFFFFFF - 0x1_0000_0000], 4)
            == [1.0, -1.0, -1.0, 1.0, -1.0, 1.0, -1.0, 1.0, -1.0, -1.0, 1.0, 1.0]
  {
    var red: Int32, green: Int32 := 0xFFFF0000 - 0x1_0000_0000, 0xFF00FF00 - 0x1_0000_0000;
    var blue: Int32, white: Int32 := 0xFF0000FF - 0x1_0000_0000, 0xFFFFFFFF - 0x1_0000_0000;
    assert Red(red) == 255 && Green(red) == 0 && Blue(red) == 0;
    assert Red(green) == 0 && Green(green) == 255 && Blue(green) == 0;
    assert Red(blue) == 0 && Green(blue) == 0 && Blue(blue) == 255;
    assert Red(white) == 255 && Green(white) == 255 && Blue(white) == 255;
  }

  // ---------------------------------------------------------------------
  // Token decoding

  /** The ids that stand for text, in their original order. */
  function RealTokens(tokens: seq<int>): (kept: seq<int>)
    ensures |kept| <= |tokens|
    ensures forall t :: t in kept ==> t in tokens && FirstRealToken <= t
    ensures forall t :: t in tokens && FirstRealToken <= t ==> t in kept
  {
    if |tokens| == 0 then []
    else (if FirstRealToken <= tokens[0] then [tokens[0]] else []) + RealTokens(tokens[1..])
  }

  /** The vocabulary entry of `id`, or "" when the vocabulary has none. */
  function Piece(vocab: seq<string>, id: int): string
  {
    if 0 <= id < |vocab| then vocab[id] else ""
  }

  /** The vocabulary entries of `ids`, in order. */
  function Pieces(vocab: seq<string>, ids: seq<int>): seq<string>
  {
    seq(|ids|, k requires 0 <= k < |ids| => Piece(vocab, ids[k]))
  }

  /** `joinToString("")`: the pieces concatenated without separator. */
  function Join(pieces: seq<string>): string
  {
    if |pieces| == 0 then "" else pieces[0] + Join(pieces[1..])
  }

  /** `decodeTokens`: drops the special ids, looks the rest up in the
      vocabulary and concatenates the entries. */
  function DecodeTokens(tokens: seq<int>, vocab: seq<string>): string
  {
    Join(Pieces(vocab, RealTokens(tokens)))
  }

  lemma {:induction false} RealTokensAppend(a: seq<int>, b: seq<int>)
    ensures RealTokens(a + b) == RealTokens(a) + RealTokens(b)
  {
    if |a| == 0 {
      assert a + b == b;
    } else {
      var head := if FirstRealToken <= a[0] then [a[0]] else [];
      assert (a + b)[0] == a[0] && (a + b)[1..] == a[1..] + b;
      RealTokensAppend(a[1..], b);
      calc {
        RealTokens(a + b);
        head + RealTokens(a[1..] + b);
        head + (RealTokens(a[1..]) + RealTokens(b));
        (head + RealTokens(a[1..])) + RealTokens(b);
      }
    }
  }

  lemma {:induction false} JoinAppend(p: seq<string>, q: seq<string>)
    ensures Join(p + q) == Join(p) + Join(q)
  {
    if |p| == 0 {
      assert p + q == q;
    } else {
      assert (p + q)[0] == p[0] && (p + q)[1..] == p[1..] + q;
      JoinAppend(p[1..], q);
      calc {
        Join(p + q);
        p[0] + Join(p[1..] + q);
        p[0] + (Join(p[1..]) + Join(q));
        (p[0] + Join(p[1..])) + Join(q);
      }
    }
  }

  /** Decoding is a homomorphism: the text of two token runs one after the
      other is the first run's text followed by the second's. */
  lemma DecodeTokensAppend(a: seq<int>, b: seq<int>, vocab: seq<string>)
    ensures DecodeTokens(a + b, vocab) == DecodeTokens(a, vocab) + DecodeTokens(b, vocab)
  {
    RealTokensAppend(a, b);
    var ra, rb := RealTokens(a), RealTokens(b);
    assert Pieces(vocab, ra + rb) == Pieces(vocab, ra) + Pieces(vocab, rb);
    JoinAppend(Pieces(vocab, ra), Pieces(vocab, rb));
  }

  /** A single id contributes its vocabulary entry ("" when out of range)
      if it is a real token and nothing otherwise. With the append lemma
      this pins down the text of every token list. */
  lemma DecodeTokensSingle(t: int, vocab: seq<string>)
    ensures DecodeTokens([t], vocab) == if FirstRealToken <= t then Piece(vocab, t) else ""
  {
    assert [t][1..] == [];
    assert RealTokens([t]) == (if FirstRealToken <= t then [t] else []) + RealTokens([]);
    if FirstRealToken <= t {
      assert RealTokens([t]) == [t];
      assert Pieces(vocab, [t]) == [Piece(vocab, t)];
      assert [Piece(vocab, t)][1..] == [];
      assert Join([Piece(vocab, t)]) == Piece(vocab, t) + Join([]);
      assert Piece(vocab, t) + "" == Piece(vocab, t);
    } else {
      assert Pieces(vocab, []) == [];
    }
  }

  /** Only special tokens: the text is empty. */
  lemma DecodeTokensSpecialOnly(tokens: seq<int>, vocab: seq<string>)
    requires forall t :: t in tokens ==> t < FirstRealToken
    ensures DecodeTokens(tokens, vocab) == ""
  {
    NoRealTokens(tokens);
    assert Pieces(vocab, []) == [];
  }

  lemma {:induction false} NoRealTokens(tokens: seq<int>)
    requires forall t :: t in tokens ==> t < FirstRealToken
    ensures RealTokens(tokens) == []
  {
    if |tokens| > 0 {
      assert tokens[0] in tokens;
      assert forall t :: t in tokens[1..] ==> t in tokens;
      NoRealTokens(tokens[1..]);
    }
  }

  /** The BOS and EOS ids are dropped, 5 and 10 are looked up. */
  lemma DecodeTokensExample()
    ensures DecodeTokens([2, 5, 10, 3], ["PAD", "UNK", "BOS", "EOS", "SEP", "A", "B", "C", "D", "E", "F"]) == "AF"
  {
    var vocab := ["PAD", "UNK", "BOS", "EOS", "SEP", "A", "B", "C", "D", "E", "F"];
    assert RealTokens([2, 5, 10, 3]) == [5, 10] by {
      assert [2, 5, 10, 3][1..] == [5, 10, 3];
      assert [5, 10, 3][1..] == [10, 3];
      assert [10, 3][1..] == [3];
    }
    assert Pieces(vocab, [5, 10]) == ["A", "F"];
    assert Join(["A", "F"]) == "A" + Join(["F"]);
    assert Join(["F"]) == "F" + Join([]);
  }

  /** An id past the end of the vocabulary reads as "". */
  lemma DecodeTokensOutOfRangeExample()
    ensures DecodeTokens([5, 99, 6], ["PAD", "UNK", "BOS", "EOS", "SEP", "A", "B"]) == "AB"
  {
    var vocab := ["PAD", "UNK", "BOS", "EOS", "SEP", "A", "B"];
    DecodeTokensAppend([5], [99, 6], vocab);
    DecodeTokensAppend([99], [6], vocab);
    assert [5] + [99, 6] == [5, 99, 6] && [99] + [6] == [99, 6];
    DecodeTokensSingle(5, vocab);
    DecodeTokensSingle(99, vocab);
    DecodeTokensSingle(6, vocab);
  }

  // ---------------------------------------------------------------------
  // Greedy decoding

  /** Kotlin's `indices.maxBy { logits[it] }`: the first position holding
      the largest logit. */
  function FirstArgMax(logits: seq<real>): (i: nat)
    requires 0 < |logits|
    ensures i < |logits|
    ensures forall j :: 0 <= j < |logits| ==> logits[j] <= logits[i]
    ensures forall j :: 0 <= j < i ==> logits[j] < logits[i]
  {
    if |logits| == 1 then 0
    else
      var best := FirstArgMax(logits[..|logits| - 1]);
      if logits[best] < logits[|logits| - 1] then |logits| - 1 else best
  }

  /** One call of the decoder: the id fed in and the step number. */
  datatype Call = Call(tokenId: int, step: int)

  /** What greedy decoding does from step `step` on, fed `tokenId`: the
      ids it collects, the decoder calls it makes, and whether it stopped
      because the decoder returned no logits (`maxBy` throws on an empty
      array). */
  datatype Trace = Trace(tokens: seq<int>, calls: seq<Call>, threw: bool)

  function Greedy(decoderStep: (int, int) -> seq<real>, tokenId: int, step: nat): Trace
    requires step <= MaxDecodeLength
    decreases MaxDecodeLength - step
  {
    if step == MaxDecodeLength then Trace([], [], false)
    else
      var logits := decoderStep(tokenId, step);
      if |logits| == 0 then Trace([], [Call(tokenId, step)], true)
      else
        var next := FirstArgMax(logits);
        if next == EosToken then Trace([], [Call(tokenId, step)], false)
        else
          var rest := Greedy(decoderStep, next, step + 1);
          Trace([next] + rest.tokens, [Call(tokenId, step)] + rest.calls, rest.threw)
  }

  /** The run `Greedy` describes, resumed at step `step` after collecting
      `tokens` and making `calls`: the whole trace it ends with. */
  function Resume(decoderStep: (int, int) -> seq<real>, tokenId: int, step: nat,
                  tokens: seq<int>, calls: seq<Call>): Trace
    requires step <= MaxDecodeLength
    decreases MaxDecodeLength - step
  {
    if step == MaxDecodeLength then Trace(tokens, calls, false)
    else
      var logits := decoderStep(tokenId, step);
      var calls' := calls + [Call(tokenId, step)];
      if |logits| == 0 then Trace(tokens, calls', true)
      else
        var next := FirstArgMax(logits);
        if next == EosToken then Trace(tokens, calls', false)
        else Resume(decoderStep, next, step + 1, tokens + [next], calls')
  }

  /** Resuming a run appends what the rest of the run produces. */
  lemma {:induction false} ResumeIsGreedy(decoderStep: (int, int) -> seq<real>, tokenId: int, step: nat,
                                         tokens: seq<int>, calls: seq<Call>)
    requires step <= MaxDecodeLength
    ensures var rest := Greedy(decoderStep, tokenId, step);
            Resume(decoderStep, tokenId, step, tokens, calls)
            == Trace(tokens + rest.tokens, calls + rest.calls, rest.threw)
    decreases MaxDecodeLength - step
  {
    var rest := Greedy(decoderStep, tokenId, step);
    if step < MaxDecodeLength {
      var logits := decoderStep(tokenId, step);
      if |logits| > 0 && FirstArgMax(logits) != EosToken {
        var next := FirstArgMax(logits);
        var call := Call(tokenId, step);
        ResumeIsGreedy(decoderStep, next, step + 1, tokens + [next], calls + [call]);
        var after := Greedy(decoderStep, next, step + 1);
        assert (tokens + [next]) + after.tokens == tokens + ([next] + after.tokens);
        assert (calls + [call]) + after.calls == calls + ([call] + after.calls);
      } else {
        assert tokens + rest.tokens == tokens;
      }
    } else {
      assert tokens + rest.tokens == tokens && calls + rest.calls == calls;
    }
  }

  /** A run started the way `greedyDecode` starts it is the run `Greedy`
      describes. */
  lemma StartIsGreedy(decoderStep: (int, int) -> seq<real>)
    ensures Resume(decoderStep, BosToken, 0, [], []) == Greedy(decoderStep, BosToken, 0)
  {
    ResumeIsGreedy(decoderStep, BosToken, 0, [], []);
    var whole := Greedy(decoderStep, BosToken, 0);
    assert [] + whole.tokens == whole.tokens && [] + whole.calls == whole.calls;
  }

  /** `greedyDecode`: feeds BOS, then each chosen id back to the decoder,
      until it chooses EOS or 40 ids are collected, and decodes the ids.
      `calls` records the decoder calls in order; `None` stands for the
      exception an empty logits array raises. The run it performs is
      `Resume` from the start, which `StartIsGreedy` identifies with
      `Greedy`. */
  method GreedyDecode(decoderStep: (int, int) -> seq<real>, vocab: seq<string>)
    returns (text: Option<string>, calls: seq<Call>)
    ensures calls == Resume(decoderStep, BosToken, 0, [], []).calls
    ensures text == if Resume(decoderStep, BosToken, 0, [], []).threw then None
                    else Some(DecodeTokens(Resume(decoderStep, BosToken, 0, [], []).tokens, vocab))
  {
    var tokens := [];
    var tokenId := BosToken;
    calls := [];
    for step := 0 to MaxDecodeLength
      invariant Resume(decoderStep, tokenId, step, tokens, calls) == Resume(decoderStep, BosToken, 0, [], [])
    {
      var logits := decoderStep(tokenId, step);
      calls := calls + [Call(tokenId, step)];
      if |logits| == 0 {
        return None, calls;
      }
      tokenId := FirstArgMax(logits);
      if tokenId == EosToken {
        break;
      }
      tokens := tokens + [tokenId];
    }
    text := Some(DecodeTokens(tokens, vocab));
  }

  /** A run makes at most one call per remaining step and collects at
      most one id per call. It makes one call more than it collects ids
      exactly when it stops early; otherwise it used every step and did
      not throw. */
  lemma {:induction false} GreedyLengths(decoderStep: (int, int) -> seq<real>, tokenId: int, step: nat)
    requires step <= MaxDecodeLength
    ensures |Greedy(decoderStep, tokenId, step).tokens| <= |Greedy(decoderStep, tokenId, step).calls| <= MaxDecodeLength - step
    ensures step < MaxDecodeLength ==> 0 < |Greedy(decoderStep, tokenId, step).calls|
    ensures |Greedy(decoderStep, tokenId, step).calls| == |Greedy(decoderStep, tokenId, step).tokens| + 1 ||
            (|Greedy(decoderStep, tokenId, step).tokens| == MaxDecodeLength - step && !Greedy(decoderStep, tokenId, step).threw)
    decreases MaxDecodeLength - step
  {
    if step < MaxDecodeLength {
      var logits := decoderStep(tokenId, step);
      if |logits| > 0 && FirstArgMax(logits) != EosToken {
        GreedyLengths(decoderStep, FirstArgMax(logits), step + 1);
      }
    }
  }

  /** The decoder is called first with the id fed in at step `step`, then
      with each collected id in turn, at consecutive step numbers. */
  lemma {:induction false} GreedyFeedsBack(decoderStep: (int, int) -> seq<real>, tokenId: int, step: nat)
    requires step <= MaxDecodeLength
    ensures var r := Greedy(decoderStep, tokenId, step);
            (0 < |r.calls| ==> r.calls[0] == Call(tokenId, step)) &&
            (forall k :: 0 <= k < |r.calls| ==> r.calls[k].step == step + k) &&
            (forall k :: 1 <= k < |r.calls| && k <= |r.tokens| ==> r.calls[k].tokenId == r.tokens[k - 1])
    decreases MaxDecodeLength - step
  {
    if step < MaxDecodeLength {
      var logits := decoderStep(tokenId, step);
      if |logits| > 0 && FirstArgMax(logits) != EosToken {
        var next := FirstArgMax(logits);
        GreedyFeedsBack(decoderStep, next, step + 1);
        var r, rest := Greedy(decoderStep, tokenId, step), Greedy(decoderStep, next, step + 1);
        assert r.calls == [Call(tokenId, step)] + rest.calls && r.tokens == [next] + rest.tokens;
        forall k | 1 <= k < |r.calls| && k <= |r.tokens|
          ensures r.calls[k].tokenId == r.tokens[k - 1]
        {
          if k > 1 {
            assert r.calls[k] == rest.calls[k - 1] && r.tokens[k - 1] == rest.tokens[k - 2];
          }
        }
      }
    }
  }

  /** At `call` the decoder returned logits whose first argmax, not EOS,
      is `token`. */
  predicate Chose(decoderStep: (int, int) -> seq<real>, call: Call, token: int)
  {
    var logits := decoderStep(call.tokenId, call.step);
    0 < |logits| && token == FirstArgMax(logits) && token != EosToken
  }

  /** Every collected id is the first argmax of the logits the decoder
      returned at that step, and is never EOS. */
  lemma {:induction false} GreedyChoices(decoderStep: (int, int) -> seq<real>, tokenId: int, step: nat)
    requires step <= MaxDecodeLength
    ensures forall k :: 0 <= k < |Greedy(decoderStep, tokenId, step).tokens| && k < |Greedy(decoderStep, tokenId, step).calls| ==>
              Chose(decoderStep, Greedy(decoderStep, tokenId, step).calls[k], Greedy(decoderStep, tokenId, step).tokens[k])
    decreases MaxDecodeLength - step
  {
    if step < MaxDecodeLength {
      var logits := decoderStep(tokenId, step);
      if |logits| > 0 && FirstArgMax(logits) != EosToken {
        var next := FirstArgMax(logits);
        GreedyChoices(decoderStep, next, step + 1);
        var r, rest := Greedy(decoderStep, tokenId, step), Greedy(decoderStep, next, step + 1);
        assert r.calls == [Call(tokenId, step)] + rest.calls && r.tokens == [next] + rest.tokens;
        forall k | 0 <= k < |r.tokens| && k < |r.calls|
          ensures Chose(decoderStep, r.calls[k], r.tokens[k])
        {
          if k > 0 {
            assert r.calls[k] == rest.calls[k - 1] && r.tokens[k] == rest.tokens[k - 1];
          }
        }
      }
    }
  }

  /** A run that stops before using every step stops at its last call:
      that call returned no logits (and threw) or chose EOS. */
  lemma {:induction false} GreedyStops(decoderStep: (int, int) -> seq<real>, tokenId: int, step: nat)
    requires step <= MaxDecodeLength
    ensures var r := Greedy(decoderStep, tokenId, step);
            |r.calls| == |r.tokens| + 1 ==>
              var logits := decoderStep(r.calls[|r.tokens|].tokenId, r.calls[|r.tokens|].step);
              if r.threw then |logits| == 0 else 0 < |logits| && FirstArgMax(logits) == EosToken
    decreases MaxDecodeLength - step
  {
    if step < MaxDecodeLength {
      var logits := decoderStep(tokenId, step);
      if |logits| > 0 && FirstArgMax(logits) != EosToken {
        var next := FirstArgMax(logits);
        GreedyStops(decoderStep, next, step + 1);
        var r, rest := Greedy(decoderStep, tokenId, step), Greedy(decoderStep, next, step + 1);
        assert r.calls == [Call(tokenId, step)] + rest.calls && r.tokens == [next] + rest.tokens;
        if |r.calls| == |r.tokens| + 1 {
          assert r.calls[|r.tokens|] == rest.calls[|rest.tokens|];
        }
      }
    }
  }

  /** A decoder that never returns empty logits and never prefers EOS
      runs the decoding for every remaining step. */
  lemma {:induction false} GreedyWithoutEos(decoderStep: (int, int) -> seq<real>, tokenId: int, step: nat)
    requires step <= MaxDecodeLength
    requires forall id, s :: 0 < |decoderStep(id, s)| && FirstArgMax(decoderStep(id, s)) != EosToken
    ensures |Greedy(decoderStep, tokenId, step).tokens| == MaxDecodeLength - step
    ensures |Greedy(decoderStep, tokenId, step).calls| == MaxDecodeLength - step
    ensures !Greedy(decoderStep, tokenId, step).threw
  {
    GreedyLengths(decoderStep, tokenId, step);
    GreedyStops(decoderStep, tokenId, step);
  }

  // ---------------------------------------------------------------------
  // Greedy decoding on scripted decoders

  /** Logits of length `size` that single out `target`. */
  function OneHot(target: nat, size: nat): (logits: seq<real>)
    requires target < size
    ensures |logits| == size
  {
    seq(size, i => if i == target then 10.0 else -10.0)
  }

  lemma OneHotArgMax(target: nat, size: nat)
    requires target < size
    ensures FirstArgMax(OneHot(target, size)) == target
  {
    var logits := OneHot(target, size);
    var i := FirstArgMax(logits);
    assert logits[target] <= logits[i];
  }

  /** Chooses A, then B, then EOS. */
  function AbDecoder(tokenId: int, step: int): seq<real>
  {
    if step == 0 then OneHot(5, 7) else if step == 1 then OneHot(6, 7) else OneHot(3, 7)
  }

  /** Decoding stops at EOS without collecting it: three calls, fed BOS,
      A and B, give "AB". */
  lemma StopsAtEosExample()
    ensures Greedy(AbDecoder, BosToken, 0) == Trace([5, 6], [Call(2, 0), Call(5, 1), Call(6, 2)], false)
    ensures DecodeTokens([5, 6], ["PAD", "UNK", "BOS", "EOS", "SEP", "A", "B"]) == "AB"
  {
    OneHotArgMax(5, 7);
    OneHotArgMax(6, 7);
    OneHotArgMax(3, 7);
    assert Greedy(AbDecoder, 6, 2) == Trace([], [Call(6, 2)], false);
    assert Greedy(AbDecoder, 5, 1) == Trace([6], [Call(5, 1), Call(6, 2)], false);
    var vocab := ["PAD", "UNK", "BOS", "EOS", "SEP", "A", "B"];
    DecodeTokensAppend([5], [6], vocab);
    assert [5] + [6] == [5, 6];
    DecodeTokensSingle(5, vocab);
    DecodeTokensSingle(6, vocab);
  }

  /** Chooses A, then returns no logits. */
  function EmptyDecoder(tokenId: int, step: int): seq<real>
  {
    if step == 0 then OneHot(5, 7) else []
  }

  /** An empty logits array ends the run with the exception: the id
      collected before it is lost with the text. */
  lemma ThrowsOnEmptyLogitsExample()
    ensures Greedy(EmptyDecoder, BosToken, 0) == Trace([5], [Call(2, 0), Call(5, 1)], true)
  {
    OneHotArgMax(5, 7);
    assert Greedy(EmptyDecoder, 5, 1) == Trace([], [Call(5, 1)], true);
  }

  /** Always chooses X. */
  function XDecoder(tokenId: int, step: int): seq<real>
  {
    OneHot(5, 6)
  }

  /** A decoder that never chooses EOS is called 40 times and yields forty
      X's, whatever id it is fed first. */
  lemma StopsAtMaxLengthExample(first: int)
    ensures |Greedy(XDecoder, first, 0).calls| == MaxDecodeLength
    ensures |Greedy(XDecoder, first, 0).tokens| == MaxDecodeLength
    ensures forall t :: t in Greedy(XDecoder, first, 0).tokens ==> t == 5
    ensures var text := DecodeTokens(Greedy(XDecoder, first, 0).tokens, ["PAD", "UNK", "BOS", "EOS", "SEP", "X"]);
            |text| == MaxDecodeLength && forall ch :: ch in text ==> ch == 'X'
  {
    OneHotArgMax(5, 6);
    forall id, s
      ensures 0 < |XDecoder(id, s)| && FirstArgMax(XDecoder(id, s)) != EosToken
    {
      assert XDecoder(id, s) == OneHot(5, 6);
    }
    GreedyWithoutEos(XDecoder, first, 0);
    GreedyChoices(XDecoder, first, 0);
    var r := Greedy(XDecoder, first, 0);
    forall k | 0 <= k < MaxDecodeLength
      ensures r.tokens[k] == 5
    {
      var c := r.calls[k];
      assert Chose(XDecoder, c, r.tokens[k]);
      assert XDecoder(c.tokenId, c.step) == OneHot(5, 6);
    }
    OnlyX(r.tokens);
  }

  /** Ids that all read X decode to as many X's. */
  lemma {:induction false} OnlyX(tokens: seq<int>)
    requires forall t :: t in tokens ==> t == 5
    ensures var text := DecodeTokens(tokens, ["PAD", "UNK", "BOS", "EOS", "SEP", "X"]);
            |text| == |tokens| && forall ch :: ch in text ==> ch == 'X'
  {
    var vocab := ["PAD", "UNK", "BOS", "EOS", "SEP", "X"];
    if |tokens| == 0 {
      DecodeTokensSpecialOnly(tokens, vocab);
    } else {
      assert tokens[0] in tokens;
      assert forall t :: t in tokens[1..] ==> t in tokens;
      OnlyX(tokens[1..]);
      assert tokens == [tokens[0]] + tokens[1..];
      DecodeTokensAppend([tokens[0]], tokens[1..], vocab);
      DecodeTokensSingle(tokens[0], vocab);
    }
  }
}
