/** Box geometry and greedy non-maximum suppression (NmsProcessor). */
module NmsProcessor {
  import opened Numeric

  /** A detection box: corners (x1, y1)-(x2, y2) and the score that the
      source keeps at index 4 of its `FloatArray`. */
  datatype Box = Box(x1: real, y1: real, x2: real, y2: real, score: real)

  /** The open rectangles of `a` and `b` share interior points. */
  predicate Overlap(a: Box, b: Box)
  {
    a.x1 < a.x2 && b.x1 < b.x2 && a.x1 < b.x2 && b.x1 < a.x2 &&
    a.y1 < a.y2 && b.y1 < b.y2 && a.y1 < b.y2 && b.y1 < a.y2
  }

  /** The area of a box, `(x2 - x1) * (y2 - y1)`. */
  function Area(b: Box): real
  {
    (b.x2 - b.x1) * (b.y2 - b.y1)
  }

  /** The area of the intersection of two boxes, when it is not empty. */
  function IntersectionArea(a: Box, b: Box): real
  {
    (MinReal(a.x2, b.x2) - MaxReal(a.x1, b.x1)) * (MinReal(a.y2, b.y2) - MaxReal(a.y1, b.y1))
  }

  /** `computeIoU`: intersection area over union area; exactly 0 when the
      boxes do not overlap. */
  function IoU(a: Box, b: Box): (r: real)
    ensures 0.0 <= r <= 1.0
    ensures r > 0.0 <==> Overlap(a, b)
  {
    var x1 := MaxReal(a.x1, b.x1);
    var y1 := MaxReal(a.y1, b.y1);
    var x2 := MinReal(a.x2, b.x2);
    var y2 := MinReal(a.y2, b.y2);
    if x2 <= x1 || y2 <= y1 then
      assert !Overlap(a, b);
      0.0
    else
      var intersection := IntersectionArea(a, b);
      assert Overlap(a, b);
      IntersectionWithinAreas(a, b);
      RatioInUnit(intersection, Area(a) + Area(b) - intersection);
      intersection / (Area(a) + Area(b) - intersection)
  }

  /** A non-empty intersection is positive and no larger than either box. */
  lemma IntersectionWithinAreas(a: Box, b: Box)
    requires MaxReal(a.x1, b.x1) < MinReal(a.x2, b.x2)
    requires MaxReal(a.y1, b.y1) < MinReal(a.y2, b.y2)
    ensures 0.0 < IntersectionArea(a, b)
    ensures IntersectionArea(a, b) <= Area(a) && IntersectionArea(a, b) <= Area(b)
  {
    var w := MinReal(a.x2, b.x2) - MaxReal(a.x1, b.x1);
    var h := MinReal(a.y2, b.y2) - MaxReal(a.y1, b.y1);
    MulPositive(w, h);
    MulMonotone(w, h, a.x2 - a.x1, a.y2 - a.y1);
    MulMonotone(w, h, b.x2 - b.x1, b.y2 - b.y1);
  }

  /** The IoU is symmetric in its two boxes. */
  lemma IoUSymmetric(a: Box, b: Box)
    ensures IoU(a, b) == IoU(b, a)
  {
    assert MaxReal(a.x1, b.x1) == MaxReal(b.x1, a.x1) && MaxReal(a.y1, b.y1) == MaxReal(b.y1, a.y1);
    assert MinReal(a.x2, b.x2) == MinReal(b.x2, a.x2) && MinReal(a.y2, b.y2) == MinReal(b.y2, a.y2);
    assert IntersectionArea(a, b) == IntersectionArea(b, a);
  }

  /** A box with positive width and height has IoU 1 with itself. */
  lemma IoUSelf(a: Box)
    requires a.x1 < a.x2 && a.y1 < a.y2
    ensures IoU(a, a) == 1.0
  {
    var area := (a.x2 - a.x1) * (a.y2 - a.y1);
    assert 0.0 < area by { MulMonotone(0.0, 0.0, a.x2 - a.x1, a.y2 - a.y1); }
    assert IoU(a, a) == area / (area + area - area);
  }

  /** [0,0,10,10] and [20,20,30,30] are disjoint: IoU 0. */
  lemma IoUDisjointExample(s: real, u: real)
    ensures IoU(Box(0.0, 0.0, 10.0, 10.0, s), Box(20.0, 20.0, 30.0, 30.0, u)) == 0.0
  {
  }

  /** [0,0,10,10] and [5,5,15,15]: intersection 25, union 175, IoU 1/7. */
  lemma IoUPartialExample(s: real, u: real)
    ensures IoU(Box(0.0, 0.0, 10.0, 10.0, s), Box(5.0, 5.0, 15.0, 15.0, u)) == 1.0 / 7.0
  {
    assert IoU(Box(0.0, 0.0, 10.0, 10.0, s), Box(5.0, 5.0, 15.0, 15.0, u)) == 25.0 / 175.0;
  }

  // ---------------------------------------------------------------------
  // Sorting by descending score (`sortedByDescending { it[4] }`, stable)

  predicate SortedByScore(s: seq<Box>)
  {
    forall i, j :: 0 <= i < j < |s| ==> s[i].score >= s[j].score
  }

  /** Places `b` before the first element whose score does not exceed its
      own, so that `b` precedes the later boxes with an equal score. */
  function InsertByScore(b: Box, s: seq<Box>): (r: seq<Box>)
    requires SortedByScore(s)
    ensures SortedByScore(r)
    ensures multiset(r) == multiset(s) + multiset{b}
  {
    if s == [] then [b]
    else if s[0].score <= b.score then [b] + s
    else
      var rest := InsertByScore(b, s[1..]);
      assert s == [s[0]] + s[1..];
      InsertBelowHead(b, s, rest);
      [s[0]] + rest
  }

  /** Putting the head of a sorted list in front of a sorted rearrangement
      of its tail and a lower-scoring box keeps the order. */
  lemma InsertBelowHead(b: Box, s: seq<Box>, rest: seq<Box>)
    requires SortedByScore(s) && 0 < |s| && b.score < s[0].score
    requires SortedByScore(rest) && multiset(rest) == multiset(s[1..]) + multiset{b}
    ensures SortedByScore([s[0]] + rest)
  {
    forall k | 0 <= k < |rest|
      ensures rest[k].score <= s[0].score
    {
      assert rest[k] in multiset(rest);
      if rest[k] != b {
        assert rest[k] in multiset(s[1..]);
      }
    }
    var r := [s[0]] + rest;
    forall i, j | 0 <= i < j < |r|
      ensures r[i].score >= r[j].score
    {
      if i > 0 {
        assert r[i] == rest[i - 1] && r[j] == rest[j - 1];
      } else {
        assert r[j] == rest[j - 1];
      }
    }
  }

  /** A stable sort of the boxes by descending score. */
  function SortByScoreDesc(boxes: seq<Box>): (r: seq<Box>)
    ensures SortedByScore(r)
    ensures multiset(r) == multiset(boxes)
    ensures |r| == |boxes|
  {
    if boxes == [] then []
    else
      assert boxes == [boxes[0]] + boxes[1..];
      InsertByScore(boxes[0], SortByScoreDesc(boxes[1..]))
  }

  // ---------------------------------------------------------------------
  // Greedy suppression over the sorted boxes

  /** Box `j` of the sorted list survives: no box before it that survived
      overlaps it with an IoU above the threshold. */
  predicate Kept(s: seq<Box>, t: real, j: nat)
    requires j < |s|
    decreases j, 1
  {
    !SuppressedBy(s, t, j, j)
  }

  /** Box `j` is suppressed by one of the surviving boxes among the first `i`. */
  predicate SuppressedBy(s: seq<Box>, t: real, i: nat, j: nat)
    requires i <= |s| && j < |s|
    decreases i, 0
  {
    exists k :: 0 <= k < i && Kept(s, t, k) && IoU(s[k], s[j]) > t
  }

  /** The positions, in increasing order, of the surviving boxes among the
      first `n`. */
  function KeptIndices(s: seq<Box>, t: real, n: nat): (ix: seq<nat>)
    requires n <= |s|
    ensures forall p :: 0 <= p < |ix| ==> ix[p] < n && Kept(s, t, ix[p])
    ensures forall p, q :: 0 <= p < q < |ix| ==> ix[p] < ix[q]
    ensures forall j :: 0 <= j < n && Kept(s, t, j) ==> j in ix
  {
    if n == 0 then []
    else KeptIndices(s, t, n - 1) + (if Kept(s, t, n - 1) then [n - 1] else [])
  }

  /** The boxes of `s` at the positions `ix`. */
  function Pick(s: seq<Box>, ix: seq<nat>): (r: seq<Box>)
    requires forall p :: 0 <= p < |ix| ==> ix[p] < |s|
  {
    seq(|ix|, p requires 0 <= p < |ix| => s[ix[p]])
  }

  /** What `applyNms` returns: the surviving boxes in descending score order. */
  function Nms(boxes: seq<Box>, t: real): seq<Box>
  {
    var s := SortByScoreDesc(boxes);
    Pick(s, KeptIndices(s, t, |s|))
  }

  /** `applyNms`: sort, then walk the sorted list keeping every box not yet
      suppressed and suppressing the later boxes that overlap it by more
      than the threshold. */
  method ApplyNms(boxes: seq<Box>, iouThreshold: real) returns (kept: seq<Box>)
    ensures kept == Nms(boxes, iouThreshold)
  {
    if |boxes| == 0 {
      return [];
    }
    var sorted := SortByScoreDesc(boxes);
    kept := KeepUnsuppressed(sorted, iouThreshold);
  }

  /** The loop of `applyNms` over the sorted boxes. */
  method KeepUnsuppressed(sorted: seq<Box>, iouThreshold: real) returns (kept: seq<Box>)
    ensures kept == Pick(sorted, KeptIndices(sorted, iouThreshold, |sorted|))
  {
    var n := |sorted|;
    var suppressed := new bool[n](_ => false);
    kept := [];
    TracksInit(sorted, iouThreshold, suppressed[..]);
    for i := 0 to n
      invariant Tracks(sorted, iouThreshold, i, kept, suppressed[..])
    {
      ghost var keptBefore, before := kept, suppressed[..];
      if !suppressed[i] {
        kept := kept + [sorted[i]];
        SuppressOverlapping(sorted, suppressed, i, iouThreshold);
      }
      LoopStep(sorted, iouThreshold, i, keptBefore, kept, before, suppressed[..]);
    }
  }

  /** After the first `i` rounds of the loop, `kept` holds the surviving
      boxes among the first `i` and the marks of the unvisited positions
      say whether a surviving box among the first `i` suppresses them. */
  ghost predicate Tracks(s: seq<Box>, t: real, i: nat, kept: seq<Box>, marks: seq<bool>)
  {
    i <= |s| && |marks| == |s| &&
    kept == Pick(s, KeptIndices(s, t, i)) &&
    marks[i..] == SuppressedFrom(s, t, i)
  }

  /** For each position from `i` on, whether a surviving box among the
      first `i` suppresses it. */
  ghost function SuppressedFrom(s: seq<Box>, t: real, i: nat): (r: seq<bool>)
    requires i <= |s|
    ensures |r| == |s| - i
  {
    seq(|s| - i, p requires 0 <= p < |s| - i => SuppressedBy(s, t, i, i + p))
  }

  /** Before the first round nothing is kept and nothing is marked. */
  lemma TracksInit(s: seq<Box>, t: real, marks: seq<bool>)
    requires |marks| == |s| && forall j :: 0 <= j < |s| ==> !marks[j]
    ensures Tracks(s, t, 0, [], marks)
  {
    assert marks[0..] == SuppressedFrom(s, t, 0);
  }

  /** One round of the loop: box `i` is appended exactly when it is not
      marked, and then marks the later boxes it overlaps too much. */
  lemma LoopStep(s: seq<Box>, t: real, i: nat, keptBefore: seq<Box>, keptAfter: seq<Box>,
                 before: seq<bool>, after: seq<bool>)
    requires i < |s| && Tracks(s, t, i, keptBefore, before)
    requires keptAfter == if before[i] then keptBefore else keptBefore + [s[i]]
    requires after == if before[i] then before else Suppress(s, t, i, before)
    ensures Tracks(s, t, i + 1, keptAfter, after)
  {
    MarkOf(s, t, i, before, i);
    KeptStep(s, t, i);
    MarksStep(s, t, i, before, after);
  }

  /** Reads the mark of position `j` off the tracked suffix. */
  lemma MarkOf(s: seq<Box>, t: real, i: nat, marks: seq<bool>, j: nat)
    requires i <= j < |s| && |marks| == |s| && marks[i..] == SuppressedFrom(s, t, i)
    ensures marks[j] == SuppressedBy(s, t, i, j)
  {
    assert marks[j] == marks[i..][j - i];
  }

  /** The marks of the positions after `i` once round `i` is done. */
  lemma MarksStep(s: seq<Box>, t: real, i: nat, before: seq<bool>, after: seq<bool>)
    requires i < |s| && |before| == |s| && before[i..] == SuppressedFrom(s, t, i)
    requires after == if before[i] then before else Suppress(s, t, i, before)
    ensures after[i + 1..] == SuppressedFrom(s, t, i + 1)
  {
    MarkOf(s, t, i, before, i);
    forall j | i + 1 <= j < |s|
      ensures after[j] == SuppressedBy(s, t, i + 1, j)
    {
      MarkOf(s, t, i, before, j);
      MarkStep(s, t, i, j, before, after);
    }
    assert after[i + 1..] == SuppressedFrom(s, t, i + 1);
  }

  /** The mark of a later position `j` after round `i`. */
  lemma MarkStep(s: seq<Box>, t: real, i: nat, j: nat, before: seq<bool>, after: seq<bool>)
    requires i < j < |s| && |before| == |s|
    requires before[j] == SuppressedBy(s, t, i, j) && before[i] == !Kept(s, t, i)
    requires after == if before[i] then before else Suppress(s, t, i, before)
    ensures after[j] == SuppressedBy(s, t, i + 1, j)
  {
    SuppressedByStep(s, t, i, j);
  }

  /** The marks after box `i` has marked every later box it overlaps by
      more than the threshold. */
  function Suppress(s: seq<Box>, t: real, i: nat, marks: seq<bool>): (r: seq<bool>)
    ensures |r| == |marks|
  {
    seq(|marks|, j requires 0 <= j < |marks| => marks[j] || (i < j < |s| && IoU(s[i], s[j]) > t))
  }

  /** The inner loop of `applyNms`: marks every later box that box `i`
      overlaps by more than the threshold; marks already set stay set. */
  method SuppressOverlapping(sorted: seq<Box>, suppressed: array<bool>, i: nat, iouThreshold: real)
    requires suppressed.Length == |sorted| && i < |sorted|
    modifies suppressed
    ensures suppressed[..] == Suppress(sorted, iouThreshold, i, old(suppressed[..]))
  {
    for j := i + 1 to |sorted|
      invariant forall j' :: 0 <= j' < |sorted| ==>
        suppressed[j'] == (old(suppressed[j']) || (i < j' < j && IoU(sorted[i], sorted[j']) > iouThreshold))
    {
      if !suppressed[j] && IoU(sorted[i], sorted[j]) > iouThreshold {
        suppressed[j] := true;
      }
    }
  }

  /** Extending the prefix by one position adds that box exactly when it
      survives. */
  lemma KeptStep(s: seq<Box>, t: real, i: nat)
    requires i < |s|
    ensures Pick(s, KeptIndices(s, t, i + 1)) ==
            Pick(s, KeptIndices(s, t, i)) + (if Kept(s, t, i) then [s[i]] else [])
  {
    var ix := KeptIndices(s, t, i);
    if Kept(s, t, i) {
      assert KeptIndices(s, t, i + 1) == ix + [i];
      assert Pick(s, ix + [i]) == Pick(s, ix) + [s[i]];
    } else {
      assert KeptIndices(s, t, i + 1) == ix;
    }
  }

  lemma SuppressedByStep(s: seq<Box>, t: real, i: nat, j: nat)
    requires i < |s| && j < |s|
    ensures SuppressedBy(s, t, i + 1, j) <==>
            SuppressedBy(s, t, i, j) || (Kept(s, t, i) && IoU(s[i], s[j]) > t)
  {
    if SuppressedBy(s, t, i + 1, j) {
      var k :| 0 <= k < i + 1 && Kept(s, t, k) && IoU(s[k], s[j]) > t;
      if k < i {
        assert SuppressedBy(s, t, i, j);
      }
    }
  }

  // ---------------------------------------------------------------------
  // Properties of the result

  /** An empty list gives an empty result. */
  lemma NmsEmpty(t: real)
    ensures Nms([], t) == []
  {
    assert KeptIndices([], t, 0) == [];
  }

  /** A single box is kept. */
  lemma NmsSingle(b: Box, t: real)
    ensures Nms([b], t) == [b]
  {
    assert [b][1..] == [];
    var s := SortByScoreDesc([b]);
    assert s == [b];
    assert !SuppressedBy(s, t, 0, 0);
    assert KeptIndices(s, t, 1) == [0];
  }

  /** A strictly increasing sequence of positions below `n` has at most `n`
      elements. */
  lemma {:induction false} IncreasingLength(ix: seq<nat>, n: nat)
    requires forall p :: 0 <= p < |ix| ==> ix[p] < n
    requires forall p, q :: 0 <= p < q < |ix| ==> ix[p] < ix[q]
    ensures |ix| <= n
  {
    if |ix| > 0 {
      var m := |ix| - 1;
      IncreasingLength(ix[..m], ix[m]);
    }
  }

  /** Boxes picked at strictly increasing positions form a sub-multiset of
      any prefix that holds all those positions. */
  lemma {:induction false} PickSubMultiset(s: seq<Box>, ix: seq<nat>, n: nat)
    requires n <= |s|
    requires forall p :: 0 <= p < |ix| ==> ix[p] < n
    requires forall p, q :: 0 <= p < q < |ix| ==> ix[p] < ix[q]
    ensures multiset(Pick(s, ix)) <= multiset(s[..n])
  {
    if |ix| > 0 {
      var m := |ix| - 1;
      var last := ix[m];
      PickSubMultiset(s, ix[..m], last);
      assert Pick(s, ix) == Pick(s, ix[..m]) + [s[last]];
      assert s[..n] == s[..last] + [s[last]] + s[last + 1..n];
    }
  }

  /** The result is a sub-multiset of the input, hence no longer. */
  lemma NmsSubMultiset(boxes: seq<Box>, t: real)
    ensures multiset(Nms(boxes, t)) <= multiset(boxes)
    ensures |Nms(boxes, t)| <= |boxes|
  {
    var s := SortByScoreDesc(boxes);
    var ix := KeptIndices(s, t, |s|);
    PickSubMultiset(s, ix, |s|);
    assert s[..|s|] == s;
    IncreasingLength(ix, |s|);
  }

  /** The kept scores are in non-increasing order. */
  lemma NmsScoresNonIncreasing(boxes: seq<Box>, t: real)
    ensures SortedByScore(Nms(boxes, t))
  {
  }

  /** The highest-scoring input box is kept, first. */
  lemma NmsKeepsTop(boxes: seq<Box>, t: real)
    requires |boxes| > 0
    ensures |Nms(boxes, t)| > 0
    ensures Nms(boxes, t)[0] == SortByScoreDesc(boxes)[0]
    ensures forall b :: b in boxes ==> b.score <= Nms(boxes, t)[0].score
  {
    var s := SortByScoreDesc(boxes);
    var ix := KeptIndices(s, t, |s|);
    assert !SuppressedBy(s, t, 0, 0);
    assert 0 in ix;
    assert ix[0] == 0;
    forall b | b in boxes
      ensures b.score <= s[0].score
    {
      assert b in multiset(s);
      var k :| 0 <= k < |s| && s[k] == b;
    }
  }

  /** Any two kept boxes overlap by at most the threshold. */
  lemma NmsKeptPairwise(boxes: seq<Box>, t: real)
    ensures forall p, q :: 0 <= p < |Nms(boxes, t)| && 0 <= q < |Nms(boxes, t)| && p != q ==>
              IoU(Nms(boxes, t)[p], Nms(boxes, t)[q]) <= t
  {
    var s := SortByScoreDesc(boxes);
    var ix := KeptIndices(s, t, |s|);
    var r := Nms(boxes, t);
    forall p, q | 0 <= p < |r| && 0 <= q < |r| && p != q
      ensures IoU(r[p], r[q]) <= t
    {
      var lo, hi := if p < q then p else q, if p < q then q else p;
      var k, j := ix[lo], ix[hi];
      assert k < j && Kept(s, t, k) && Kept(s, t, j);
      assert !SuppressedBy(s, t, j, j);
      assert IoU(s[k], s[j]) <= t;
      IoUSymmetric(s[k], s[j]);
      assert r[lo] == s[k] && r[hi] == s[j];
    }
  }

  /** Every input box is kept, or is overlapped by more than the threshold
      by a kept box whose score is at least its own. */
  lemma NmsDroppedIsCovered(boxes: seq<Box>, t: real)
    ensures forall b :: b in boxes ==>
              b in Nms(boxes, t) ||
              exists p :: 0 <= p < |Nms(boxes, t)| &&
                Nms(boxes, t)[p].score >= b.score && IoU(Nms(boxes, t)[p], b) > t
  {
    var s := SortByScoreDesc(boxes);
    var ix := KeptIndices(s, t, |s|);
    var r := Nms(boxes, t);
    forall b | b in boxes
      ensures b in r || exists p :: 0 <= p < |r| && r[p].score >= b.score && IoU(r[p], b) > t
    {
      assert b in multiset(s);
      var j :| 0 <= j < |s| && s[j] == b;
      DroppedIsCoveredAt(s, t, j);
    }
  }

  /** Position-wise form of `NmsDroppedIsCovered` over the sorted boxes. */
  lemma DroppedIsCoveredAt(s: seq<Box>, t: real, j: nat)
    requires j < |s| && SortedByScore(s)
    ensures var r := Pick(s, KeptIndices(s, t, |s|));
            s[j] in r || exists p :: 0 <= p < |r| && r[p].score >= s[j].score && IoU(r[p], s[j]) > t
  {
    var ix := KeptIndices(s, t, |s|);
    var r := Pick(s, ix);
    if Kept(s, t, j) {
      var p :| 0 <= p < |ix| && ix[p] == j;
      assert r[p] == s[j];
    } else {
      assert SuppressedBy(s, t, j, j);
      var k :| 0 <= k < j && Kept(s, t, k) && IoU(s[k], s[j]) > t;
      var p :| 0 <= p < |ix| && ix[p] == k;
      assert r[p] == s[k];
    }
  }

  /** By position: each box of the sorted list is kept, or an earlier kept
      box of at least its score overlaps it by more than the threshold.
      Unlike `NmsDroppedIsCovered`, a dropped copy of a box that also
      survives elsewhere is covered by a box at another position. */
  lemma NmsDroppedIsCoveredAt(boxes: seq<Box>, t: real, j: nat)
    requires j < |boxes|
    ensures var s := SortByScoreDesc(boxes);
            var ix := KeptIndices(s, t, |s|);
            j in ix ||
            exists p :: 0 <= p < |ix| && ix[p] < j &&
              s[ix[p]].score >= s[j].score && IoU(s[ix[p]], s[j]) > t
  {
    var s := SortByScoreDesc(boxes);
    var ix := KeptIndices(s, t, |s|);
    if !Kept(s, t, j) {
      assert SuppressedBy(s, t, j, j);
      var k :| 0 <= k < j && Kept(s, t, k) && IoU(s[k], s[j]) > t;
      var p :| 0 <= p < |ix| && ix[p] == k;
      assert s[ix[p]].score >= s[j].score;
    }
  }

  /** Sorting two boxes puts the higher-scoring one first; on a tie the
      input order stays. */
  lemma SortPair(p: Box, q: Box)
    ensures SortByScoreDesc([p, q]) == if p.score >= q.score then [p, q] else [q, p]
  {
    assert [p, q][1..] == [q] && [q][1..] == [];
    assert SortByScoreDesc([q]) == [q];
  }

  /** Over two sorted boxes the second survives exactly when its IoU with
      the first is at most the threshold. */
  lemma KeptPair(s: seq<Box>, t: real)
    requires |s| == 2
    ensures KeptIndices(s, t, 2) == if IoU(s[0], s[1]) > t then [0] else [0, 1]
  {
    assert !SuppressedBy(s, t, 0, 0);
    assert KeptIndices(s, t, 1) == [0];
    if IoU(s[0], s[1]) > t {
      assert SuppressedBy(s, t, 1, 1);
    } else {
      assert !SuppressedBy(s, t, 1, 1);
    }
  }

  /** Picking the first, or both, of two boxes. */
  lemma PickPair(s: seq<Box>)
    requires |s| == 2
    ensures Pick(s, [0]) == [s[0]] && Pick(s, [0, 1]) == s
  {
  }

  /** Two boxes: the higher-scoring one (the first on a tie) is kept, and
      the other survives only when their IoU is at most the threshold. */
  lemma NmsPair(p: Box, q: Box, t: real)
    ensures p.score >= q.score ==> Nms([p, q], t) == if IoU(p, q) > t then [p] else [p, q]
    ensures p.score < q.score ==> Nms([p, q], t) == if IoU(q, p) > t then [q] else [q, p]
  {
    SortPair(p, q);
    var s := SortByScoreDesc([p, q]);
    KeptPair(s, t);
    PickPair(s);
  }

  /** Of two boxes overlapping with IoU 81/119 > 0.5, only the one with the
      higher score is kept, although it comes second in the input. */
  lemma NmsSuppressesExample()
    ensures Nms([Box(1.0, 1.0, 11.0, 11.0, 0.5), Box(0.0, 0.0, 10.0, 10.0, 0.9)], 0.5)
            == [Box(0.0, 0.0, 10.0, 10.0, 0.9)]
  {
    var high, low := Box(0.0, 0.0, 10.0, 10.0, 0.9), Box(1.0, 1.0, 11.0, 11.0, 0.5);
    NmsPair(low, high, 0.5);
    IoUShiftedExample();
  }

  /** Two 10 x 10 squares offset by one along both axes share 81 of their
      119 covered units. */
  lemma IoUShiftedExample()
    ensures IoU(Box(0.0, 0.0, 10.0, 10.0, 0.9), Box(1.0, 1.0, 11.0, 11.0, 0.5)) == 81.0 / 119.0
  {
    assert IntersectionArea(Box(0.0, 0.0, 10.0, 10.0, 0.9), Box(1.0, 1.0, 11.0, 11.0, 0.5)) == 81.0;
  }

  /** Two disjoint boxes are both kept, in descending score order. */
  lemma NmsKeepsDisjointExample()
    ensures Nms([Box(0.0, 0.0, 10.0, 10.0, 0.9), Box(50.0, 50.0, 60.0, 60.0, 0.8)], 0.5)
            == [Box(0.0, 0.0, 10.0, 10.0, 0.9), Box(50.0, 50.0, 60.0, 60.0, 0.8)]
  {
    var a, b := Box(0.0, 0.0, 10.0, 10.0, 0.9), Box(50.0, 50.0, 60.0, 60.0, 0.8);
    NmsPair(a, b, 0.5);
    assert IoU(a, b) == 0.0;
  }
}
