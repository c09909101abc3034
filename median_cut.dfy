/**
 * The median-cut quantiser that the command line calls (src/palette.go).
 *
 * Boxes are lists of samples. The builder starts from one box holding the
 * caller's own pixel buffer, repeatedly splits the box of greatest channel
 * range among those with at least two samples, and reduces every box to a
 * representative colour. Splitting works in place: the first split reorders
 * the caller's buffer, later splits reorder private copies.
 */
module MedianCut {
  import opened Colors
  import opened Stats
  import Select

  /**
   * medianCutSplit: reorders the buffer around its middle index along the
   * dominant channel and returns copies of the first `n / 2` samples and of
   * the rest. Between them the halves hold exactly the buffer's samples.
   */
  method MedianCutSplit(pxs: array<RGB>) returns (left: seq<RGB>, right: seq<RGB>)
    modifies pxs
    ensures multiset(pxs[..]) == old(multiset(pxs[..]))
    ensures left + right == pxs[..]
    ensures |left| == pxs.Length / 2 && |right| == pxs.Length - pxs.Length / 2
    ensures multiset(left) + multiset(right) == old(multiset(pxs[..]))
  {
    var dominant := DominantChannel(pxs[..]);
    var mid := pxs.Length / 2;
    Select.NthElementByChannel(pxs, mid, dominant);
    left := pxs[..mid];
    right := pxs[mid..];
    assert left + right == pxs[..];
  }

  /**
   * nthElementR / nthElementG / nthElementB: copies one channel into a
   * scratch byte buffer and quickselects rank `k` in it. The caller's samples
   * are not touched. The result is one of the channel's values.
   */
  method NthElement(pxs: seq<RGB>, ch: Channel, k: int) returns (v: uint8)
    requires |pxs| > 0
    ensures v in multiset(Keys(pxs, ch))
    ensures Min(Keys(pxs, ch)) <= v <= Max(Keys(pxs, ch))
  {
    var temp := new uint8[|pxs|];
    var i := 0;
    while i < |pxs|
      invariant 0 <= i <= |pxs|
      invariant forall t :: 0 <= t < i ==> temp[t] == Key(pxs[t], ch)
    {
      temp[i] := Key(pxs[i], ch);
      i := i + 1;
    }
    assert temp[..] == Keys(pxs, ch);
    v := Select.QuickSelectUint8(temp, k);
  }

  /** The per-channel truncated mean, which medianColor uses for one to three samples. */
  function TruncatedMeanColor(pxs: seq<RGB>): (c: RGB)
    requires |pxs| > 0
  {
    var n := |pxs|;
    ChannelSumBounds(pxs, 0);
    ChannelSumBounds(pxs, 1);
    ChannelSumBounds(pxs, 2);
    TruncatedMeanWithin(Sum(Keys(pxs, 0)), n, 0, 255);
    TruncatedMeanWithin(Sum(Keys(pxs, 1)), n, 0, 255);
    TruncatedMeanWithin(Sum(Keys(pxs, 2)), n, 0, 255);
    RGB(Sum(Keys(pxs, 0)) / n, Sum(Keys(pxs, 1)) / n, Sum(Keys(pxs, 2)) / n)
  }

  /** The truncated mean lies in the samples' bounding box. */
  lemma TruncatedMeanInBoundingBox(pxs: seq<RGB>)
    requires |pxs| > 0
    ensures InBoundingBox(TruncatedMeanColor(pxs), pxs)
  {
    forall ch: Channel
      ensures Min(Keys(pxs, ch)) <= Key(TruncatedMeanColor(pxs), ch) <= Max(Keys(pxs, ch))
    {
      var ks := Keys(pxs, ch);
      SumBounds(ks, Min(ks), Max(ks));
      ChannelSumBounds(pxs, ch);
      TruncatedMeanWithin(Sum(ks), |pxs|, Min(ks), Max(ks));
    }
  }

  /**
   * medianColor: black for no samples; the truncated mean for one to three
   * samples; otherwise, per channel, the selected middle value (odd count)
   * or the floor of the mean of the two selected middle values (even count).
   * Whatever the path, a non-empty box yields a colour inside its bounding box.
   */
  method MedianColor(pxs: seq<RGB>) returns (c: RGB)
    ensures |pxs| == 0 ==> c == Black
    ensures 1 <= |pxs| <= 3 ==> c == TruncatedMeanColor(pxs)
    ensures |pxs| >= 4 ==> MiddleCandidate(pxs, 0, c.r) && MiddleCandidate(pxs, 1, c.g) && MiddleCandidate(pxs, 2, c.b)
    ensures |pxs| > 0 ==> InBoundingBox(c, pxs)
  {
    if |pxs| == 0 {
      return Black;
    }
    if |pxs| <= 3 {
      c := TruncatedMean(pxs);
      TruncatedMeanInBoundingBox(pxs);
      return c;
    }
    var r := ChannelMedian(pxs, 0);
    var g := ChannelMedian(pxs, 1);
    var b := ChannelMedian(pxs, 2);
    c := RGB(r, g, b);
    forall ch: Channel
      ensures Min(Keys(pxs, ch)) <= Key(c, ch) <= Max(Keys(pxs, ch))
    {
      assert Key(c, ch) == if ch == 0 then r else if ch == 1 then g else b;
    }
  }

  /** The one-to-three-sample path of medianColor: per-channel sums, divided with truncation. */
  method TruncatedMean(pxs: seq<RGB>) returns (c: RGB)
    requires |pxs| > 0
    ensures c == TruncatedMeanColor(pxs)
  {
    var n := |pxs|;
    var rs, gs, bs := Keys(pxs, 0), Keys(pxs, 1), Keys(pxs, 2);
    var rsum, gsum, bsum := 0, 0, 0;
    var i := 0;
    while i < n
      invariant 0 <= i <= n
      invariant rsum == Sum(rs[..i]) && gsum == Sum(gs[..i]) && bsum == Sum(bs[..i])
    {
      assert rs[..i + 1][..i] == rs[..i];
      assert gs[..i + 1][..i] == gs[..i];
      assert bs[..i + 1][..i] == bs[..i];
      rsum := rsum + pxs[i].r;
      gsum := gsum + pxs[i].g;
      bsum := bsum + pxs[i].b;
      i := i + 1;
    }
    assert rs[..i] == rs && gs[..i] == gs && bs[..i] == bs;
    c := TruncatedMeanColor(pxs);
  }

  /**
   * The selection path of medianColor for one channel: the value selected
   * at the middle rank for an odd count, the floor of the mean of the values
   * selected at the two middle ranks for an even count.
   */
  method ChannelMedian(pxs: seq<RGB>, ch: Channel) returns (v: uint8)
    requires |pxs| > 0
    ensures Min(Keys(pxs, ch)) <= v <= Max(Keys(pxs, ch))
    ensures MiddleCandidate(pxs, ch, v)
  {
    var n := |pxs|;
    var mid := n / 2;
    if n % 2 == 1 {
      v := NthElement(pxs, ch, mid);
    } else {
      var v1 := NthElement(pxs, ch, mid - 1);
      var v2 := NthElement(pxs, ch, mid);
      v := (v1 as int + v2 as int) / 2;
      assert v1 in multiset(Keys(pxs, ch)) && v2 in multiset(Keys(pxs, ch)) && v == (v1 as int + v2 as int) / 2;
    }
  }

  /**
   * What the selection path of medianColor can yield for one channel: one
   * of the channel's values for an odd count, the floor of the mean of two
   * of its values for an even count.
   */
  ghost predicate MiddleCandidate(pxs: seq<RGB>, ch: Channel, v: int)
  {
    var ks := multiset(Keys(pxs, ch));
    if |pxs| % 2 == 1 then v in ks
    else exists v1, v2 :: v1 in ks && v2 in ks && v == (v1 + v2) / 2
  }

  /**
   * What medianColor promises for a non-empty box: a colour inside the box's
   * bounding box; the truncated mean for one to three samples; per channel a
   * selection-path value for four or more.
   */
  ghost predicate Represents(c: RGB, box: seq<RGB>)
  {
    |box| > 0 && InBoundingBox(c, box) &&
    (|box| <= 3 ==> c == TruncatedMeanColor(box)) &&
    (|box| >= 4 ==> MiddleCandidate(box, 0, c.r) && MiddleCandidate(box, 1, c.g) && MiddleCandidate(box, 2, c.b))
  }

  /** The greatest of a box's three channel ranges, as the box-selection loop computes it. */
  method BoxRange(box: seq<RGB>) returns (maxRange: int)
    ensures maxRange == MaxSpread(box)
    ensures 0 <= maxRange <= 255
  {
    var r := ChannelRange(box, 0);
    var g := ChannelRange(box, 1);
    var bRange := ChannelRange(box, 2);
    maxRange := r;
    if g > maxRange {
      maxRange := g;
    }
    if bRange > maxRange {
      maxRange := bRange;
    }
  }

  /**
   * The box-selection step of MedianCutPalette: -1 when no box holds two
   * samples; otherwise the first box of greatest channel range among the
   * boxes holding at least two samples.
   */
  method WidestBox(boxes: seq<seq<RGB>>) returns (w: int)
    ensures w == -1 <==> forall i :: 0 <= i < |boxes| ==> |boxes[i]| <= 1
    ensures w != -1 ==> 0 <= w < |boxes| && |boxes[w]| >= 2
    ensures w != -1 ==> forall i {:trigger MaxSpread(boxes[i])} :: 0 <= i < |boxes| && |boxes[i]| >= 2 ==> MaxSpread(boxes[i]) <= MaxSpread(boxes[w])
    ensures w != -1 ==> forall i {:trigger MaxSpread(boxes[i])} :: 0 <= i < w && |boxes[i]| >= 2 ==> MaxSpread(boxes[i]) < MaxSpread(boxes[w])
  {
    var widestIdx, widestRange := -1, -1;
    var i := 0;
    while i < |boxes|
      invariant 0 <= i <= |boxes|
      invariant widestIdx == -1 ==> widestRange == -1 && forall t :: 0 <= t < i ==> |boxes[t]| <= 1
      invariant widestIdx != -1 ==> 0 <= widestIdx < i && |boxes[widestIdx]| >= 2 && widestRange == MaxSpread(boxes[widestIdx])
      invariant forall t :: 0 <= t < i && |boxes[t]| >= 2 ==> MaxSpread(boxes[t]) <= widestRange
      invariant forall t :: 0 <= t < widestIdx && |boxes[t]| >= 2 ==> MaxSpread(boxes[t]) < widestRange
    {
      if |boxes[i]| <= 1 {
        RangesBelow(boxes, i, widestRange, widestRange);
        i := i + 1;
        continue;
      }
      var maxRange := BoxRange(boxes[i]);
      if maxRange > widestRange {
        StrictlyBelow(boxes, i, widestRange, maxRange);
        RangesBelow(boxes, i, widestRange, maxRange);
        widestRange := maxRange;
        widestIdx := i;
      } else {
        RangesBelow(boxes, i, widestRange, widestRange);
      }
      i := i + 1;
    }
    w := widestIdx;
  }

  /** Raising the bound on the ranges of the first `i` boxes to one that also covers box `i`. */
  lemma RangesBelow(boxes: seq<seq<RGB>>, i: nat, before: int, after: int)
    requires i < |boxes| && before <= after
    requires forall t :: 0 <= t < i && |boxes[t]| >= 2 ==> MaxSpread(boxes[t]) <= before
    requires |boxes[i]| >= 2 ==> MaxSpread(boxes[i]) <= after
    ensures forall t :: 0 <= t <= i && |boxes[t]| >= 2 ==> MaxSpread(boxes[t]) <= after
  {
  }

  /** A range above the bound of the first `i` boxes is strictly above each of their ranges. */
  lemma StrictlyBelow(boxes: seq<seq<RGB>>, i: nat, before: int, after: int)
    requires i <= |boxes| && before < after
    requires forall t :: 0 <= t < i && |boxes[t]| >= 2 ==> MaxSpread(boxes[t]) <= before
    ensures forall t :: 0 <= t < i && |boxes[t]| >= 2 ==> MaxSpread(boxes[t]) < after
  {
  }

  /** Pads a non-empty palette to `k` entries by repeating its last entry. */
  method PadWithLast(palette: seq<RGB>, k: int) returns (result: seq<RGB>)
    requires |palette| > 0
    ensures |palette| >= k ==> result == palette
    ensures |palette| < k ==> |result| == k
    ensures result[..|palette|] == palette
    ensures forall i :: |palette| <= i < |result| ==> result[i] == palette[|palette| - 1]
  {
    result := palette;
    while |result| < k
      invariant |palette| <= |result|
      invariant |result| <= k || result == palette
      invariant result[..|palette|] == palette
      invariant forall i :: |palette| <= i < |result| ==> result[i] == palette[|palette| - 1]
      decreases k - |result|
    {
      assert (result + [result[|result| - 1]])[..|palette|] == result[..|palette|];
      result := result + [result[|result| - 1]];
    }
  }

  /** Replacing box `w` by its two halves keeps every sample exactly once. */
  lemma PoolAfterSplit(boxes: seq<seq<RGB>>, w: nat, left: seq<RGB>, right: seq<RGB>)
    requires w < |boxes|
    requires multiset(left) + multiset(right) == multiset(boxes[w])
    ensures Pool(boxes[w := left] + [right]) == Pool(boxes)
  {
    var rest := boxes[w := left];
    PoolAppend(rest, [right]);
    assert Pool([right]) == multiset(right) by { assert [right][..0] == []; }
    PoolUpdate(boxes, w, left);
    // Cancel multiset(left) from both sides, one element at a time.
    forall y ensures Pool(rest + [right])[y] == Pool(boxes)[y] {
      assert (Pool(rest) + multiset(boxes[w]))[y] == (Pool(boxes) + multiset(left))[y];
    }
    assert Pool(rest + [right]) == Pool(boxes);
  }

  /**
   * MedianCutPalette: no colours for k <= 0; the rounded mean for k = 1;
   * when there are at most k samples, the samples themselves padded with the
   * last one; otherwise exactly k boxes that share out the samples, each
   * reduced by medianColor. Every colour lies in the bounding box of the
   * input. Only the first split reorders the caller's buffer, and only on
   * the last path.
   *
   * With two or more colours asked for and no samples the source indexes an
   * empty slice, hence the precondition.
   */
  method MedianCutPalette(pixels: array<RGB>, k: int)
    returns (palette: seq<RGB>, ghost boxes: seq<seq<RGB>>, ghost trace: seq<seq<seq<RGB>>>, ghost choices: seq<int>)
    requires k <= 1 || pixels.Length > 0
    modifies pixels
    ensures multiset(pixels[..]) == old(multiset(pixels[..]))
    ensures 2 <= k < pixels.Length ==> Run(old(pixels[..]), trace, choices) && trace[|trace| - 1] == boxes
    ensures k <= 1 || pixels.Length <= k ==> pixels[..] == old(pixels[..])
    ensures k <= 0 ==> palette == []
    ensures k == 1 ==> palette == [if pixels.Length == 0 then Black else MeanColor(old(pixels[..]))]
    ensures k >= 1 ==> |palette| == k
    ensures 2 <= k && pixels.Length <= k ==>
              palette[..pixels.Length] == old(pixels[..]) &&
              forall i :: pixels.Length <= i < k ==> palette[i] == old(pixels[pixels.Length - 1])
    ensures 2 <= k < pixels.Length ==>
              |boxes| == k && Pool(boxes) == multiset(old(pixels[..])) &&
              (forall i :: 0 <= i < k ==> |boxes[i]| > 0) &&
              (forall i :: 0 <= i < k ==> Represents(palette[i], boxes[i]))
    ensures pixels.Length > 0 ==> forall i :: 0 <= i < |palette| ==> InBoundingBox(palette[i], old(pixels[..]))
  {
    boxes, trace, choices := [], [], [];
    if k <= 0 {
      return [], boxes, trace, choices;
    }
    if k == 1 {
      var c := AverageColor(pixels[..]);
      if pixels.Length > 0 {
        MeanInBoundingBox(pixels[..]);
      }
      return [c], boxes, trace, choices;
    }
    if pixels.Length <= k {
      palette := PadWithLast(pixels[..], k);
      PaddedInBoundingBox(pixels[..], palette);
      return palette, boxes, trace, choices;
    }
    var bx;
    bx, trace, choices := SplitBoxes(pixels, k);
    palette := BoxColors(bx);
    boxes := bx;
    // Every box is non-empty, so the padding of the source adds nothing here.
    palette := PadWithLast(palette, k);
    BoxColorsInBoundingBox(boxes, palette, old(pixels[..]));
  }

  /** A palette of samples, padded with its last sample, lies in the samples' bounding box. */
  lemma PaddedInBoundingBox(pxs: seq<RGB>, palette: seq<RGB>)
    requires 0 < |pxs| <= |palette| && palette[..|pxs|] == pxs
    requires forall i :: |pxs| <= i < |palette| ==> palette[i] == pxs[|pxs| - 1]
    ensures forall i :: 0 <= i < |palette| ==> InBoundingBox(palette[i], pxs)
  {
    forall i | 0 <= i < |palette| ensures InBoundingBox(palette[i], pxs) {
      if i < |pxs| {
        assert palette[i] == palette[..|pxs|][i];
        SampleInBoundingBox(pxs, i);
      } else {
        SampleInBoundingBox(pxs, |pxs| - 1);
      }
    }
  }

  /** A colour in the bounding box of its box lies in the bounding box of all samples. */
  lemma BoxColorsInBoundingBox(boxes: seq<seq<RGB>>, palette: seq<RGB>, pxs: seq<RGB>)
    requires |palette| == |boxes| && Pool(boxes) == multiset(pxs)
    requires forall t :: 0 <= t < |boxes| ==> InBoundingBox(palette[t], boxes[t])
    ensures forall t :: 0 <= t < |boxes| ==> InBoundingBox(palette[t], pxs)
  {
    forall t | 0 <= t < |boxes| ensures InBoundingBox(palette[t], pxs) {
      BoxInPool(boxes, t);
      BoundingBoxMonotone(palette[t], boxes[t], pxs);
    }
  }

  /**
   * The splitting loop of MedianCutPalette. With more samples than colours
   * asked for, the loop never runs out of splittable boxes: k boxes of at
   * most one sample each could not hold them all.
   */
  method SplitBoxes(pixels: array<RGB>, k: int) returns (bx: seq<seq<RGB>>, ghost trace: seq<seq<seq<RGB>>>, ghost choices: seq<int>)
    requires 2 <= k < pixels.Length
    modifies pixels
    ensures multiset(pixels[..]) == old(multiset(pixels[..]))
    ensures Run(old(pixels[..]), trace, choices) && trace[|trace| - 1] == bx
    ensures |bx| == k && Pool(bx) == multiset(old(pixels[..]))
    ensures forall i :: 0 <= i < |bx| ==> |bx[i]| > 0
  {
    bx := [pixels[..]];
    assert Pool(bx) == multiset(pixels[..]) by { assert bx[..0] == []; }
    trace, choices := [bx], [];
    while |bx| < k
      invariant 1 <= |bx| <= k
      invariant Run(old(pixels[..]), trace, choices) && trace[|trace| - 1] == bx
      invariant Pool(bx) == multiset(old(pixels[..]))
      invariant forall i :: 0 <= i < |bx| ==> |bx[i]| > 0
      invariant |bx| == 1 ==> bx[0] == pixels[..]
      invariant multiset(pixels[..]) == old(multiset(pixels[..]))
      decreases k - |bx|
    {
      var w := WidestBox(bx);
      if w == -1 {
        PoolOfSmallBoxes(bx);
        assert false;
        break;
      }
      var next := SplitAt(pixels, bx, w);
      assert SplitStep(bx, w, next);
      RunSnoc(old(pixels[..]), trace, choices, w, next);
      trace, choices := trace + [next], choices + [w];
      bx := next;
    }
  }

  /**
   * One split of the loop: box `w` is replaced by its left half and its right
   * half is appended. While it is the only box, box 0 is the caller's buffer
   * and is split in place; any other box is split in a private copy.
   */
  method SplitAt(pixels: array<RGB>, bx: seq<seq<RGB>>, w: int) returns (bx': seq<seq<RGB>>)
    requires 0 <= w < |bx| && |bx[w]| >= 2
    requires forall i :: 0 <= i < |bx| ==> |bx[i]| > 0
    requires |bx| == 1 ==> bx[0] == pixels[..]
    modifies pixels
    ensures |bx'| == |bx| + 1 && Pool(bx') == Pool(bx)
    ensures bx' == bx[w := bx'[w]] + [bx'[|bx|]]
    ensures |bx'[w]| == |bx[w]| / 2 && |bx'[|bx|]| == |bx[w]| - |bx[w]| / 2
    ensures multiset(bx'[w]) + multiset(bx'[|bx|]) == multiset(bx[w])
    ensures forall i :: 0 <= i < |bx'| ==> |bx'[i]| > 0
    ensures multiset(pixels[..]) == old(multiset(pixels[..]))
  {
    var left, right;
    if |bx| == 1 {
      left, right := MedianCutSplit(pixels);
    } else {
      var box := new RGB[|bx[w]|](t requires 0 <= t < |bx[w]| => bx[w][t]);
      assert box[..] == bx[w];
      left, right := MedianCutSplit(box);
    }
    PoolAfterSplit(bx, w, left, right);
    bx' := bx[w := left] + [right];
  }

  /**
   * Box `w` is the one WidestBox picks: it holds at least two samples, no box
   * holding two has a greater range, and every earlier such box a smaller one.
   */
  ghost predicate IsWidest(boxes: seq<seq<RGB>>, w: int)
  {
    0 <= w < |boxes| && |boxes[w]| >= 2
    && (forall i :: 0 <= i < |boxes| && |boxes[i]| >= 2 ==> MaxSpread(boxes[i]) <= MaxSpread(boxes[w]))
    && (forall i :: 0 <= i < w && |boxes[i]| >= 2 ==> MaxSpread(boxes[i]) < MaxSpread(boxes[w]))
  }

  /**
   * One pass of the splitting loop: the widest box `w` of `prev` is replaced by
   * its lower half and its upper half is appended; the halves hold the box's
   * samples between them, the lower one the smaller half.
   */
  ghost predicate SplitStep(prev: seq<seq<RGB>>, w: int, next: seq<seq<RGB>>)
  {
    IsWidest(prev, w) && |next| == |prev| + 1 && next == prev[w := next[w]] + [next[|prev|]]
    && |next[w]| == |prev[w]| / 2 && |next[|prev|]| == |prev[w]| - |prev[w]| / 2
    && multiset(next[w]) + multiset(next[|prev|]) == multiset(prev[w])
  }

  /** `trace` lists the box lists of a run of the loop from the single box `start`, `choices` the box split at each pass. */
  ghost predicate Run(start: seq<RGB>, trace: seq<seq<seq<RGB>>>, choices: seq<int>)
  {
    |trace| == |choices| + 1 && trace[0] == [start]
    && forall i :: 0 <= i < |choices| ==> SplitStep(trace[i], choices[i], trace[i + 1])
  }

  /** A run extended by one more pass is a run. */
  lemma RunSnoc(start: seq<RGB>, trace: seq<seq<seq<RGB>>>, choices: seq<int>, w: int, next: seq<seq<RGB>>)
    requires Run(start, trace, choices) && SplitStep(trace[|trace| - 1], w, next)
    ensures Run(start, trace + [next], choices + [w])
  {
    var trace', choices' := trace + [next], choices + [w];
    forall i | 0 <= i < |choices'|
      ensures SplitStep(trace'[i], choices'[i], trace'[i + 1])
    {
      if i < |choices| {
        assert trace'[i] == trace[i] && trace'[i + 1] == trace[i + 1] && choices'[i] == choices[i];
      }
    }
  }

  /** After `i` passes the run holds `i + 1` boxes. */
  lemma {:induction false} RunLength(start: seq<RGB>, trace: seq<seq<seq<RGB>>>, choices: seq<int>, i: nat)
    requires Run(start, trace, choices) && i < |trace|
    ensures |trace[i]| == i + 1
  {
    if i > 0 {
      RunLength(start, trace, choices, i - 1);
      assert SplitStep(trace[i - 1], choices[i - 1], trace[i]);
    }
  }

  /**
   * Asked for two colours, the loop splits the image once, at the middle:
   * the first box holds the lower half of the samples (rounded down) and the
   * second the rest. Five samples give boxes of two and three.
   */
  lemma TwoColourSplit(start: seq<RGB>, trace: seq<seq<seq<RGB>>>, choices: seq<int>, boxes: seq<seq<RGB>>)
    requires Run(start, trace, choices) && trace[|trace| - 1] == boxes && |boxes| == 2
    ensures |boxes[0]| == |start| / 2 && |boxes[1]| == |start| - |start| / 2
    ensures multiset(boxes[0]) + multiset(boxes[1]) == multiset(start)
  {
    RunLength(start, trace, choices, |trace| - 1);
    assert SplitStep(trace[0], choices[0], trace[1]);
  }

  /** The reduction loop of MedianCutPalette: one medianColor per box. */
  method BoxColors(bx: seq<seq<RGB>>) returns (palette: seq<RGB>)
    requires forall i :: 0 <= i < |bx| ==> |bx[i]| > 0
    ensures |palette| == |bx|
    ensures forall t :: 0 <= t < |bx| ==> Represents(palette[t], bx[t])
  {
    palette := [];
    var i := 0;
    while i < |bx|
      invariant 0 <= i <= |bx|
      invariant |palette| == i
      invariant forall t :: 0 <= t < i ==> Represents(palette[t], bx[t])
    {
      var c := MedianColor(bx[i]);
      palette := palette + [c];
      i := i + 1;
    }
  }

  /** Every sample lies in the bounding box of its own sample set. */
  lemma SampleInBoundingBox(pxs: seq<RGB>, i: nat)
    requires i < |pxs|
    ensures InBoundingBox(pxs[i], pxs)
  {
    forall ch: Channel ensures Min(Keys(pxs, ch)) <= Key(pxs[i], ch) <= Max(Keys(pxs, ch)) {
      assert Keys(pxs, ch)[i] == Key(pxs[i], ch);
    }
  }
}
