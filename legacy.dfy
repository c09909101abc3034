/**
 * The older median-cut quantiser (internal/palette/palette.go), which the
 * command line does not call. It differs from the current one in these
 * ways: a split sorts the whole box along the dominant channel; a box is
 * reduced to the true per-channel median of its sorted values, rounded
 * half up for an even count; the widest box is chosen among ALL boxes (the
 * first box wins by default), the loop stopping as soon as that box cannot
 * be split; the right half is inserted just after the split box rather
 * than appended; k = 1 gives the median rather than the mean; there is no
 * shortcut that copies and pads the samples when there are at most k of
 * them; nearest-entry distances start from the largest float; and the
 * counting has no guard for an empty palette.
 *
 * The channel range, the dominant channel, the rounded mean, the hex code
 * and the report entries are the same code in both versions and are shared
 * with the current one (modules Stats, Colors and Ranking).
 */
module Legacy {
  import opened Colors
  import opened Stats
  import Sorting
  import MedianCut

  // ---------------------------------------------------------------------
  // Splitting

  /**
   * medianCutSplit: sorts the box in place by the dominant channel and
   * returns copies of the first `n / 2` samples and of the rest. Every key in
   * the left half is at most every key in the right half. The sort is not
   * stable, so which of several equal-key samples land in which half is
   * unspecified.
   */
  method MedianCutSplit(pxs: array<RGB>) returns (left: seq<RGB>, right: seq<RGB>, ghost ch: Channel)
    modifies pxs
    ensures forall c: Channel :: Spread(old(pxs[..]), c) <= Spread(old(pxs[..]), ch)
    ensures forall c: Channel :: c < ch ==> Spread(old(pxs[..]), c) < Spread(old(pxs[..]), ch)
    ensures multiset(pxs[..]) == old(multiset(pxs[..]))
    ensures forall x, y :: 0 <= x < y < pxs.Length ==> Key(pxs[x], ch) <= Key(pxs[y], ch)
    ensures left + right == pxs[..]
    ensures |left| == pxs.Length / 2 && |right| == pxs.Length - pxs.Length / 2
    ensures forall i, j :: 0 <= i < |left| && 0 <= j < |right| ==> Key(left[i], ch) <= Key(right[j], ch)
    ensures multiset(left) + multiset(right) == old(multiset(pxs[..]))
  {
    var dominant := DominantChannel(pxs[..]);
    ch := dominant;
    Sorting.SortByKey(pxs, (c: RGB) => Key(c, dominant) as int);
    assert forall x, y :: 0 <= x < y < pxs.Length ==> Key(pxs[x], ch) <= Key(pxs[y], ch);
    var mid := pxs.Length / 2;
    left := pxs[..mid];
    right := pxs[mid..];
    assert left + right == pxs[..];
    forall i, j | 0 <= i < |left| && 0 <= j < |right|
      ensures Key(left[i], ch) <= Key(right[j], ch)
    {
      assert left[i] == pxs[i] && right[j] == pxs[mid + j];
    }
  }

  // ---------------------------------------------------------------------
  // Reduction to the median

  /**
   * The middle of a sorted run of channel values: the middle one for an odd
   * count; for an even count the mean of the two middle ones rounded half
   * up, which is what rounding an exact half away from zero gives for
   * non-negative values.
   */
  function Middle(s: seq<int>): (m: int)
    requires |s| > 0
  {
    var n := |s|;
    if n % 2 == 1 then s[n / 2] else (s[n / 2 - 1] + s[n / 2] + 1) / 2
  }

  /** The median of one channel: the middle of that channel's values in sorted order. */
  function ChannelMedianOf(pxs: seq<RGB>, ch: Channel): (v: uint8)
    requires |pxs| > 0
  {
    MedianWithin(pxs, ch);
    Middle(Sorting.SortedSeq(Keys(pxs, ch)))
  }

  /** The middle of the sorted channel values lies between the channel's minimum and maximum. */
  lemma MedianWithin(pxs: seq<RGB>, ch: Channel)
    requires |pxs| > 0
    ensures Min(Keys(pxs, ch)) <= Middle(Sorting.SortedSeq(Keys(pxs, ch))) <= Max(Keys(pxs, ch))
    ensures 0 <= Middle(Sorting.SortedSeq(Keys(pxs, ch))) <= 255
  {
    var ks := Keys(pxs, ch);
    var t := Sorting.SortedSeq(ks);
    var n := |ks|;
    Sorting.SortedSeqMember(ks, n / 2);
    MemberWithinBounds(ks, t[n / 2]);
    if n % 2 == 0 {
      Sorting.SortedSeqMember(ks, n / 2 - 1);
      MemberWithinBounds(ks, t[n / 2 - 1]);
    }
    MinMaxMembers(ks);
  }

  /** medianColor as the older version defines it: black for no samples, else the per-channel medians. */
  function MedianColorOf(pxs: seq<RGB>): (c: RGB)
  {
    if |pxs| == 0 then Black
    else RGB(ChannelMedianOf(pxs, 0), ChannelMedianOf(pxs, 1), ChannelMedianOf(pxs, 2))
  }

  /** The median colour of a non-empty box lies in the box's bounding box. */
  lemma MedianInBoundingBox(pxs: seq<RGB>)
    requires |pxs| > 0
    ensures InBoundingBox(MedianColorOf(pxs), pxs)
  {
    var c := MedianColorOf(pxs);
    forall ch: Channel ensures Min(Keys(pxs, ch)) <= Key(c, ch) <= Max(Keys(pxs, ch)) {
      MedianWithin(pxs, ch);
      assert Key(c, ch) == ChannelMedianOf(pxs, ch);
    }
  }

  /** A box whose samples all have the same colour has that colour as its median. */
  lemma MedianOfUniform(pxs: seq<RGB>, c: RGB)
    requires |pxs| > 0 && forall i :: 0 <= i < |pxs| ==> pxs[i] == c
    ensures MedianColorOf(pxs) == c
  {
    forall ch: Channel ensures ChannelMedianOf(pxs, ch) == Key(c, ch) {
      UniformChannel(pxs, c, ch);
    }
  }

  lemma UniformChannel(pxs: seq<RGB>, c: RGB, ch: Channel)
    requires |pxs| > 0 && forall i :: 0 <= i < |pxs| ==> pxs[i] == c
    ensures ChannelMedianOf(pxs, ch) == Key(c, ch)
  {
    var ks := Keys(pxs, ch);
    var t := Sorting.SortedSeq(ks);
    var n := |ks|;
    Sorting.SortedSeqMember(ks, n / 2);
    assert t[n / 2] in ks;
    if n % 2 == 0 {
      Sorting.SortedSeqMember(ks, n / 2 - 1);
      assert t[n / 2 - 1] in ks;
    }
  }

  /**
   * medianColor: copies the three channels into integer buffers, sorts
   * each and takes the middle (odd count) or the rounded-up mean of the two
   * middle values (even count).
   */
  method MedianColor(pxs: seq<RGB>) returns (c: RGB)
    ensures c == MedianColorOf(pxs)
  {
    if |pxs| == 0 {
      return Black;
    }
    var rr, gg, bb := ChannelBuffers(pxs);
    var r := SortedMiddle(rr, pxs, 0);
    var g := SortedMiddle(gg, pxs, 1);
    var b := SortedMiddle(bb, pxs, 2);
    c := RGB(r, g, b);
  }

  /** The copying loop of medianColor: one fresh integer buffer per channel. */
  method ChannelBuffers(pxs: seq<RGB>) returns (rr: array<int>, gg: array<int>, bb: array<int>)
    ensures fresh(rr) && fresh(gg) && fresh(bb) && rr != gg && gg != bb && rr != bb
    ensures rr[..] == Keys(pxs, 0) && gg[..] == Keys(pxs, 1) && bb[..] == Keys(pxs, 2)
  {
    var n := |pxs|;
    rr, gg, bb := new int[n], new int[n], new int[n];
    var i := 0;
    while i < n
      invariant 0 <= i <= n
      invariant forall t :: 0 <= t < i ==> rr[t] == pxs[t].r && gg[t] == pxs[t].g && bb[t] == pxs[t].b
    {
      rr[i], gg[i], bb[i] := pxs[i].r, pxs[i].g, pxs[i].b;
      i := i + 1;
    }
  }

  /** sort.Ints on one channel buffer, then its middle. */
  method SortedMiddle(a: array<int>, ghost pxs: seq<RGB>, ghost ch: Channel) returns (v: int)
    requires |pxs| > 0 && a[..] == Keys(pxs, ch)
    modifies a
    ensures v == ChannelMedianOf(pxs, ch)
  {
    ghost var ks := a[..];
    Sorting.SortByKey(a, (x: int) => x);
    assert Sorting.Sorted(a[..]);
    Sorting.SortedIsSortedSeq(a[..], ks);
    var n := a.Length;
    if n % 2 == 1 {
      v := a[n / 2];
    } else {
      v := (a[n / 2 - 1] + a[n / 2] + 1) / 2;
    }
  }

  // ---------------------------------------------------------------------
  // Choosing the box to split

  /**
   * Box `w` is the one the older version picks: the first box of greatest
   * channel range over ALL boxes, whatever their size.
   */
  ghost predicate IsWidest(boxes: seq<seq<RGB>>, w: int)
  {
    0 <= w < |boxes| &&
    (forall i :: 0 <= i < |boxes| ==> MaxSpread(boxes[i]) <= MaxSpread(boxes[w])) &&
    (forall i :: 0 <= i < w ==> MaxSpread(boxes[i]) < MaxSpread(boxes[w]))
  }

  /**
   * The selection loop: `widestIdx` starts at 0 and `widestRange` at -1,
   * and a box replaces the current choice only with a strictly greater range.
   */
  method WidestBox(boxes: seq<seq<RGB>>) returns (w: int)
    requires |boxes| > 0
    ensures IsWidest(boxes, w)
  {
    ghost var ranges := BoxRanges(boxes);
    var widestIdx, widestRange := 0, -1;
    var i := 0;
    while i < |boxes|
      invariant 0 <= i <= |boxes|
      invariant Leading(ranges, i, widestIdx, widestRange)
    {
      var maxRange := MedianCut.BoxRange(boxes[i]);
      LeadingStep(ranges, i, widestIdx, widestRange, maxRange);
      if maxRange > widestRange {
        widestRange := maxRange;
        widestIdx := i;
      }
      i := i + 1;
    }
    w := widestIdx;
  }

  /** The greatest channel range of each box. */
  ghost function BoxRanges(boxes: seq<seq<RGB>>): (rs: seq<int>)
    ensures |rs| == |boxes| && forall t :: 0 <= t < |boxes| ==> rs[t] == MaxSpread(boxes[t])
  {
    seq(|boxes|, t requires 0 <= t < |boxes| => MaxSpread(boxes[t]))
  }

  /**
   * After `i` boxes, `idx` is the first index of greatest range among them
   * and `best` that range; before any, 0 and -1.
   */
  ghost predicate Leading(ranges: seq<int>, i: int, idx: int, best: int)
  {
    0 <= i <= |ranges| &&
    (i == 0 ==> idx == 0 && best == -1) &&
    (i > 0 ==> 0 <= idx < i && best == ranges[idx]) &&
    (forall t :: 0 <= t < i ==> ranges[t] <= best) &&
    (forall t :: 0 <= t < idx ==> ranges[t] < best)
  }

  /** One step of the selection loop: a strictly greater range takes over. */
  lemma LeadingStep(ranges: seq<int>, i: int, idx: int, best: int, v: int)
    requires Leading(ranges, i, idx, best) && i < |ranges| && v == ranges[i] && v >= 0
    ensures v > best ==> Leading(ranges, i + 1, i, v)
    ensures v <= best ==> Leading(ranges, i + 1, idx, best)
  {
  }

  // ---------------------------------------------------------------------
  // Building the palette

  /**
   * The loop stopped early: the box it would split next holds at most one
   * sample, even if some other box of the same range could still be split.
   */
  ghost predicate Stalled(boxes: seq<seq<RGB>>)
  {
    exists w :: IsWidest(boxes, w) && |boxes[w]| <= 1
  }

  /**
   * The older loop can stall while a box still holds two samples: with four
   * samples of one colour and k = 4, the first two splits give boxes of one,
   * one and two samples; all three have range 0, so box 0 is chosen, and it
   * holds a single sample.
   */
  lemma StallWithSplittableBox(c: RGB)
    ensures Stalled([[c], [c], [c, c]])
  {
    var boxes := [[c], [c], [c, c]];
    UniformHasNoRange([c], c);
    UniformHasNoRange([c, c], c);
    assert IsWidest(boxes, 0);
  }

  /** Samples of a single colour have range 0 in every channel. */
  lemma UniformHasNoRange(pxs: seq<RGB>, c: RGB)
    requires |pxs| > 0 && forall i :: 0 <= i < |pxs| ==> pxs[i] == c
    ensures MaxSpread(pxs) == 0
  {
    forall ch: Channel ensures Spread(pxs, ch) == 0 {
      var ks := Keys(pxs, ch);
      MinMaxMembers(ks);
    }
  }

  /**
   * Replacing box `w` by two halves holding its samples keeps every sample
   * exactly once and leaves the other boxes where they were, those after `w`
   * one place further on.
   */
  lemma PoolAfterReplace(boxes: seq<seq<RGB>>, w: nat, left: seq<RGB>, right: seq<RGB>)
    requires w < |boxes|
    requires multiset(left) + multiset(right) == multiset(boxes[w])
    ensures var s := boxes[..w] + [left, right] + boxes[w + 1..];
      |s| == |boxes| + 1 && Pool(s) == Pool(boxes) &&
      s[..w] == boxes[..w] && s[w] == left && s[w + 1] == right && s[w + 2..] == boxes[w + 1..]
  {
    var pre, post := boxes[..w], boxes[w + 1..];
    var s := pre + [left, right] + post;
    assert boxes == pre + [boxes[w]] + post;
    PoolOfThree(pre, [left, right], post);
    PoolOfThree(pre, [boxes[w]], post);
    PoolOfPair(left, right);
    assert s[..w] == pre && s[w + 2..] == post;
  }

  lemma PoolOfThree(pre: seq<seq<RGB>>, mid: seq<seq<RGB>>, post: seq<seq<RGB>>)
    ensures Pool(pre + mid + post) == Pool(pre) + Pool(mid) + Pool(post)
  {
    PoolAppend(pre + mid, post);
    PoolAppend(pre, mid);
  }

  lemma PoolOfPair(left: seq<RGB>, right: seq<RGB>)
    ensures Pool([left]) == multiset(left)
    ensures Pool([left, right]) == multiset(left) + multiset(right)
  {
    assert [left, right][..1] == [left];
    assert [left][..0] == [];
  }

  /**
   * One split of the older loop: box `w` is replaced in place by its left
   * and right halves, the boxes after it moving up by one. While it is the
   * only box, box 0 is the caller's buffer and is sorted in place; any other
   * box is sorted in a private copy.
   */
  method ReplaceBox(pixels: array<RGB>, bx: seq<seq<RGB>>, w: int) returns (bx': seq<seq<RGB>>)
    requires 0 <= w < |bx| && |bx[w]| >= 2
    requires |bx| == 1 ==> bx[0] == pixels[..]
    modifies pixels
    ensures |bx'| == |bx| + 1 && Pool(bx') == Pool(bx)
    ensures bx'[..w] == bx[..w] && bx'[w + 2..] == bx[w + 1..]
    ensures |bx'[w]| == |bx[w]| / 2 && |bx'[w + 1]| == |bx[w]| - |bx[w]| / 2
    ensures multiset(bx'[w]) + multiset(bx'[w + 1]) == multiset(bx[w])
    ensures KeysOrdered(bx'[w], bx'[w + 1], Dominant(bx[w]))
    ensures (forall i :: 0 <= i < |bx| ==> |bx[i]| > 0) ==> forall i :: 0 <= i < |bx'| ==> |bx'[i]| > 0
    ensures multiset(pixels[..]) == old(multiset(pixels[..]))
  {
    var left, right;
    ghost var ch;
    if |bx| == 1 {
      left, right, ch := MedianCutSplit(pixels);
    } else {
      var box := new RGB[|bx[w]|](t requires 0 <= t < |bx[w]| => bx[w][t]);
      assert box[..] == bx[w];
      left, right, ch := MedianCutSplit(box);
    }
    DominantUnique(bx[w], ch);
    PoolAfterReplace(bx, w, left, right);
    bx' := bx[..w] + [left, right] + bx[w + 1..];
    NonEmptyAfterReplace(bx, w, bx');
  }

  /** The boxes stay non-empty when one of them is replaced by two non-empty halves. */
  lemma NonEmptyAfterReplace(bx: seq<seq<RGB>>, w: int, bx': seq<seq<RGB>>)
    requires 0 <= w < |bx| && |bx'| == |bx| + 1
    requires bx'[..w] == bx[..w] && bx'[w + 2..] == bx[w + 1..]
    requires |bx'[w]| > 0 && |bx'[w + 1]| > 0
    ensures (forall i :: 0 <= i < |bx| ==> |bx[i]| > 0) ==> forall i :: 0 <= i < |bx'| ==> |bx'[i]| > 0
  {
    if forall i :: 0 <= i < |bx| ==> |bx[i]| > 0 {
      forall i | 0 <= i < |bx'| ensures |bx'[i]| > 0 {
        if i < w {
          assert bx'[i] == bx'[..w][i];
        } else if i > w + 1 {
          assert bx'[i] == bx'[w + 2..][i - w - 2];
        }
      }
    }
  }

  /** Every key of `left` is at most every key of `right` in channel `ch`. */
  ghost predicate KeysOrdered(left: seq<RGB>, right: seq<RGB>, ch: Channel)
  {
    forall i, j :: 0 <= i < |left| && 0 <= j < |right| ==> Key(left[i], ch) <= Key(right[j], ch)
  }

  /**
   * One iteration of the older splitting loop: box `w` is the widest, holds
   * at least two samples, and is replaced in place by a left half of
   * `n / 2` samples and a right half of the rest, every key of the left half
   * being at most every key of the right one along the box's dominant
   * channel.
   */
  ghost predicate SplitStep(prev: seq<seq<RGB>>, w: int, next: seq<seq<RGB>>)
  {
    IsWidest(prev, w) && |prev[w]| >= 2 &&
    |next| == |prev| + 1 && next[..w] == prev[..w] && next[w + 2..] == prev[w + 1..] &&
    |next[w]| == |prev[w]| / 2 &&
    multiset(next[w]) + multiset(next[w + 1]) == multiset(prev[w]) &&
    KeysOrdered(next[w], next[w + 1], Dominant(prev[w]))
  }

  /**
   * A run of the older splitting loop from the single box `start`: every
   * list of boxes in `trace` comes from the one before it by a split of box
   * `choices[i]`.
   */
  ghost predicate Run(start: seq<RGB>, trace: seq<seq<seq<RGB>>>, choices: seq<int>)
  {
    |trace| == |choices| + 1 && trace[0] == [start] &&
    forall i :: 0 <= i < |choices| ==> SplitStep(trace[i], choices[i], trace[i + 1])
  }

  /** A run extended by one more split is a run. */
  lemma RunSnoc(start: seq<RGB>, trace: seq<seq<seq<RGB>>>, choices: seq<int>, w: int, next: seq<seq<RGB>>)
    requires Run(start, trace, choices) && SplitStep(trace[|trace| - 1], w, next)
    ensures Run(start, trace + [next], choices + [w])
  {
    var trace', choices' := trace + [next], choices + [w];
    forall i | 0 <= i < |choices'| ensures SplitStep(trace'[i], choices'[i], trace'[i + 1]) {
      if i < |choices| {
        assert trace'[i] == trace[i] && trace'[i + 1] == trace[i + 1] && choices'[i] == choices[i];
      }
    }
  }

  /** After i splits there are i + 1 boxes. */
  lemma {:induction false} RunLength(start: seq<RGB>, trace: seq<seq<seq<RGB>>>, choices: seq<int>, i: nat)
    requires Run(start, trace, choices) && i < |trace|
    ensures |trace[i]| == i + 1
  {
    if i > 0 {
      RunLength(start, trace, choices, i - 1);
      assert SplitStep(trace[i - 1], choices[i - 1], trace[i]);
    }
  }

  /** There is only one widest box. */
  lemma WidestUnique(boxes: seq<seq<RGB>>, w1: int, w2: int)
    requires IsWidest(boxes, w1) && IsWidest(boxes, w2)
    ensures w1 == w2
  {
    if w1 <= w2 {
      WidestFirst(boxes, w1, w2);
    } else {
      WidestFirst(boxes, w2, w1);
    }
  }

  lemma WidestFirst(boxes: seq<seq<RGB>>, w1: int, w2: int)
    requires IsWidest(boxes, w1) && IsWidest(boxes, w2) && w1 <= w2
    ensures w1 == w2
  {
    if w1 < w2 {
      EarlierNarrower(boxes, w1, w2);
      assert false;
    }
  }

  /** A box before the widest one has a strictly smaller range, so it is not the widest itself. */
  lemma EarlierNarrower(boxes: seq<seq<RGB>>, i: int, w: int)
    requires IsWidest(boxes, w) && 0 <= i < w
    ensures MaxSpread(boxes[i]) < MaxSpread(boxes[w])
    ensures IsWidest(boxes, i) ==> MaxSpread(boxes[w]) <= MaxSpread(boxes[i])
  {
  }

  /** The loop splits only while it has not stalled: no list of a run but the last is stalled. */
  lemma RunNotStalled(start: seq<RGB>, trace: seq<seq<seq<RGB>>>, choices: seq<int>)
    requires Run(start, trace, choices)
    ensures forall i :: 0 <= i < |choices| ==> !Stalled(trace[i])
  {
    forall i | 0 <= i < |choices| ensures !Stalled(trace[i]) {
      assert SplitStep(trace[i], choices[i], trace[i + 1]);
      if Stalled(trace[i]) {
        var w :| IsWidest(trace[i], w) && |trace[i][w]| <= 1;
        WidestUnique(trace[i], w, choices[i]);
      }
    }
  }

  /**
   * Black, white, black, white with k = 2: any run the contract of
   * MedianCutPalette allows sorts the box by red and cuts it into two blacks
   * and two whites, so the palette is black and white, not two greys.
   */
  lemma SortedSplitExample(trace: seq<seq<seq<RGB>>>, choices: seq<int>, boxes: seq<seq<RGB>>, palette: seq<RGB>)
    requires Run([Black, White, Black, White], trace, choices) && trace[|trace| - 1] == boxes
    requires 1 <= |boxes| <= 2 && (|boxes| < 2 ==> Stalled(boxes))
    requires |palette| == 2 && forall i :: 0 <= i < |boxes| ==> palette[i] == MedianColorOf(boxes[i])
    requires forall i :: |boxes| <= i < 2 ==> palette[i] == palette[|boxes| - 1]
    ensures boxes == [[Black, Black], [White, White]]
    ensures palette == [Black, White]
  {
    SortedSplitBoxes(trace, choices, boxes);
    PaletteOfUniformBoxes(boxes, palette, [Black, White]);
  }

  /** The boxes of SortedSplitExample. */
  lemma SortedSplitBoxes(trace: seq<seq<seq<RGB>>>, choices: seq<int>, boxes: seq<seq<RGB>>)
    requires Run([Black, White, Black, White], trace, choices) && trace[|trace| - 1] == boxes
    requires 1 <= |boxes| <= 2 && (|boxes| < 2 ==> Stalled(boxes))
    ensures boxes == [[Black, Black], [White, White]]
  {
    RunLength([Black, White, Black, White], trace, choices, |trace| - 1);
    if |choices| == 0 {
      BlackWhiteStart(trace, choices);
      assert false;
    }
    BlackWhiteSplit(trace, choices);
    assert boxes == [boxes[0], boxes[1]];
  }

  /** The single box of black, white, black, white can be split, so the loop does not stall on it. */
  lemma BlackWhiteStart(trace: seq<seq<seq<RGB>>>, choices: seq<int>)
    requires Run([Black, White, Black, White], trace, choices)
    ensures !Stalled(trace[0])
  {
    assert |trace[0]| == 1 && |trace[0][0]| == 4;
  }

  /** The first split of black, white, black, white: the two blacks, then the two whites. */
  lemma BlackWhiteSplit(trace: seq<seq<seq<RGB>>>, choices: seq<int>)
    requires Run([Black, White, Black, White], trace, choices) && |choices| >= 1
    ensures |trace[1]| == 2 && trace[1][0] == [Black, Black] && trace[1][1] == [White, White]
  {
    assert SplitStep(trace[0], choices[0], trace[1]);
    BlackWhiteDominant();
    HalvesOfBlackWhite(trace[1][0], trace[1][1]);
  }

  /**
   * When box i holds only samples of colour `colors[i]`, the palette is
   * those colours, the last one repeated.
   */
  lemma PaletteOfUniformBoxes(boxes: seq<seq<RGB>>, palette: seq<RGB>, colors: seq<RGB>)
    requires 1 <= |boxes| == |colors| <= |palette|
    requires forall i :: 0 <= i < |boxes| ==> |boxes[i]| > 0 && forall j :: 0 <= j < |boxes[i]| ==> boxes[i][j] == colors[i]
    requires forall i :: 0 <= i < |boxes| ==> palette[i] == MedianColorOf(boxes[i])
    requires forall i :: |boxes| <= i < |palette| ==> palette[i] == palette[|boxes| - 1]
    ensures palette == colors + seq(|palette| - |boxes|, _ => colors[|colors| - 1])
  {
    forall i | 0 <= i < |boxes| ensures palette[i] == colors[i] {
      MedianOfUniform(boxes[i], colors[i]);
    }
  }

  /** When every box holds only samples of colour `c`, every palette entry is `c`. */
  lemma PaletteOfOneColour(boxes: seq<seq<RGB>>, palette: seq<RGB>, c: RGB)
    requires 1 <= |boxes| <= |palette| && AllOf(boxes, c)
    requires forall i :: 0 <= i < |boxes| ==> palette[i] == MedianColorOf(boxes[i])
    requires forall i :: |boxes| <= i < |palette| ==> palette[i] == palette[|boxes| - 1]
    ensures forall i :: 0 <= i < |palette| ==> palette[i] == c
  {
    forall i | 0 <= i < |boxes| ensures palette[i] == c {
      MedianOfUniform(boxes[i], c);
    }
  }

  /** Every channel of black, white, black, white spans 0..255, so red is dominant. */
  lemma BlackWhiteDominant()
    ensures Dominant([Black, White, Black, White]) == 0
  {
    var start := [Black, White, Black, White];
    forall c: Channel ensures Spread(start, c) == 255 {
      var ks := Keys(start, c);
      assert ks == [0, 255, 0, 255];
      MinMaxMembers(ks);
    }
  }

  /** The only halves of two samples each, ordered by red, of two blacks and two whites. */
  lemma HalvesOfBlackWhite(l: seq<RGB>, r: seq<RGB>)
    requires |l| == 2 && multiset(l) + multiset(r) == multiset([Black, White, Black, White])
    requires KeysOrdered(l, r, 0)
    ensures l == [Black, Black] && r == [White, White]
  {
    var m := multiset([Black, White, Black, White]);
    var ml, mr := multiset(l), multiset(r);
    assert |ml + mr| == |l| + |r|;
    assert |r| == 2;
    assert m[White] == 2 && m[Black] == 2;
    forall x | x in l + r ensures x == Black || x == White {
      assert x in ml + mr;
    }
    assert l[0] in l + r && l[1] in l + r && r[0] in l + r && r[1] in l + r;
    if l[0] == White || l[1] == White {
      TooManyWhites(l, r);
      assert false;
    }
    assert l == [Black, Black];
    assert ml[Black] == 2 && mr[Black] == 0;
    assert r[0] in mr && r[1] in mr;
  }

  /** A white on the left forces both right samples to be white: three whites in all. */
  lemma TooManyWhites(l: seq<RGB>, r: seq<RGB>)
    requires |l| == 2 && |r| == 2 && KeysOrdered(l, r, 0) && (l[0] == White || l[1] == White)
    requires (r[0] == Black || r[0] == White) && (r[1] == Black || r[1] == White)
    ensures multiset(l)[White] + multiset(r)[White] >= 3
  {
    var i := if l[0] == White then 0 else 1;
    assert Key(l[i], 0) <= Key(r[0], 0) && Key(l[i], 0) <= Key(r[1], 0);
    assert r == [White, White];
    assert l == [l[0], l[1]];
  }

  /**
   * Four samples of one colour with k = 4: any run the contract of
   * MedianCutPalette allows stops at boxes of one, one and two samples, and
   * the palette is that colour four times.
   */
  lemma StallExample(c: RGB, trace: seq<seq<seq<RGB>>>, choices: seq<int>, boxes: seq<seq<RGB>>, palette: seq<RGB>)
    requires Run([c, c, c, c], trace, choices) && trace[|trace| - 1] == boxes
    requires 1 <= |boxes| <= 4 && (|boxes| < 4 ==> Stalled(boxes))
    requires |palette| == 4 && forall i :: 0 <= i < |boxes| ==> palette[i] == MedianColorOf(boxes[i])
    requires forall i :: |boxes| <= i < 4 ==> palette[i] == palette[|boxes| - 1]
    ensures boxes == [[c], [c], [c, c]]
    ensures palette == [c, c, c, c]
  {
    StallBoxes(c, trace, choices, boxes);
    PaletteOfOneColour(boxes, palette, c);
    assert palette == [palette[0], palette[1], palette[2], palette[3]];
  }

  /** The boxes of StallExample. */
  lemma StallBoxes(c: RGB, trace: seq<seq<seq<RGB>>>, choices: seq<int>, boxes: seq<seq<RGB>>)
    requires Run([c, c, c, c], trace, choices) && trace[|trace| - 1] == boxes
    requires 1 <= |boxes| <= 4 && (|boxes| < 4 ==> Stalled(boxes))
    ensures boxes == [[c], [c], [c, c]] && AllOf(boxes, c)
  {
    RunLength([c, c, c, c], trace, choices, |trace| - 1);
    if |choices| == 0 {
      StallAfter(c, trace, choices, 0);
      assert false;
    } else if |choices| == 1 {
      StallAfter(c, trace, choices, 1);
      assert false;
    } else if |choices| >= 3 {
      ThirdSplitImpossible(c, trace, choices);
      assert false;
    }
    AfterTwoSplits(c, trace, choices);
    UniformShape(boxes, c);
  }

  /** Four samples of one colour, before any split: one box of four. */
  lemma AfterNoSplit(c: RGB, trace: seq<seq<seq<RGB>>>, choices: seq<int>)
    requires Run([c, c, c, c], trace, choices)
    ensures AllOf(trace[0], c) && |trace[0]| == 1 && |trace[0][0]| == 4
  {
  }

  /** After one split: two boxes of two. */
  lemma AfterOneSplit(c: RGB, trace: seq<seq<seq<RGB>>>, choices: seq<int>)
    requires Run([c, c, c, c], trace, choices) && |choices| >= 1
    ensures AllOf(trace[1], c) && |trace[1]| == 2 && |trace[1][0]| == 2 && |trace[1][1]| == 2
  {
    AfterNoSplit(c, trace, choices);
    assert SplitStep(trace[0], choices[0], trace[1]);
    UniformStep(trace[0], choices[0], trace[1], c);
  }

  /** After two splits: boxes of one, one and two. */
  lemma AfterTwoSplits(c: RGB, trace: seq<seq<seq<RGB>>>, choices: seq<int>)
    requires Run([c, c, c, c], trace, choices) && |choices| >= 2
    ensures AllOf(trace[2], c) && |trace[2]| == 3 && |trace[2][0]| == 1 && |trace[2][1]| == 1 && |trace[2][2]| == 2
  {
    AfterOneSplit(c, trace, choices);
    assert SplitStep(trace[1], choices[1], trace[2]);
    UniformStep(trace[1], choices[1], trace[2], c);
  }

  /** No third split: the box the scan picks then holds one sample. */
  lemma ThirdSplitImpossible(c: RGB, trace: seq<seq<seq<RGB>>>, choices: seq<int>)
    requires Run([c, c, c, c], trace, choices)
    ensures |choices| <= 2
  {
    if |choices| >= 3 {
      AfterTwoSplits(c, trace, choices);
      assert SplitStep(trace[2], choices[2], trace[3]);
      UniformWidest(trace[2], c, choices[2]);
    }
  }

  /** The loop does not stall before the second split: box 0 still holds two or more samples. */
  lemma StallAfter(c: RGB, trace: seq<seq<seq<RGB>>>, choices: seq<int>, i: nat)
    requires Run([c, c, c, c], trace, choices) && i <= 1 && i < |trace|
    ensures !Stalled(trace[i])
  {
    if i == 0 {
      AfterNoSplit(c, trace, choices);
    } else {
      AfterOneSplit(c, trace, choices);
    }
    if Stalled(trace[i]) {
      StalledUniform(trace[i], c);
    }
  }

  /** Boxes of one colour stall only when box 0 holds at most one sample. */
  lemma StalledUniform(boxes: seq<seq<RGB>>, c: RGB)
    requires AllOf(boxes, c) && Stalled(boxes)
    ensures |boxes[0]| <= 1
  {
    var w :| IsWidest(boxes, w) && |boxes[w]| <= 1;
    UniformWidest(boxes, c, w);
  }

  /** Every sample of every box is `c`, and no box is empty. */
  ghost predicate AllOf(boxes: seq<seq<RGB>>, c: RGB)
  {
    forall i :: 0 <= i < |boxes| ==> |boxes[i]| > 0 && forall j :: 0 <= j < |boxes[i]| ==> boxes[i][j] == c
  }

  /** Among boxes of one colour all ranges are 0, so the widest box is box 0. */
  lemma UniformWidest(boxes: seq<seq<RGB>>, c: RGB, w: int)
    requires AllOf(boxes, c) && IsWidest(boxes, w)
    ensures w == 0
  {
    if w > 0 {
      UniformHasNoRange(boxes[0], c);
      UniformHasNoRange(boxes[w], c);
      assert false;
    }
  }

  /**
   * A split of boxes of one colour splits box 0 into two halves of that
   * colour, of n/2 and n - n/2 samples, and moves the other boxes up by one.
   */
  lemma UniformSplit(prev: seq<seq<RGB>>, w: int, next: seq<seq<RGB>>, c: RGB)
    requires AllOf(prev, c) && SplitStep(prev, w, next)
    ensures w == 0 && |next[0]| == |prev[0]| / 2 && |next[1]| == |prev[0]| - |prev[0]| / 2
    ensures forall j :: 0 <= j < |next[0]| ==> next[0][j] == c
    ensures forall j :: 0 <= j < |next[1]| ==> next[1][j] == c
    ensures next[2..] == prev[1..]
  {
    UniformWidest(prev, c, w);
    var l, r := next[0], next[1];
    assert |multiset(l) + multiset(r)| == |l| + |r|;
    forall j | 0 <= j < |l| ensures l[j] == c {
      assert l[j] in multiset(prev[0]);
    }
    forall j | 0 <= j < |r| ensures r[j] == c {
      assert r[j] in multiset(prev[0]);
    }
  }

  /** After a split of boxes of one colour, all boxes are still of that colour, and the sizes are as UniformSplit says. */
  lemma UniformStep(prev: seq<seq<RGB>>, w: int, next: seq<seq<RGB>>, c: RGB)
    requires AllOf(prev, c) && SplitStep(prev, w, next)
    ensures w == 0 && AllOf(next, c)
    ensures |next[0]| == |prev[0]| / 2 && |next[1]| == |prev[0]| - |prev[0]| / 2
    ensures forall i :: 2 <= i < |next| ==> |next[i]| == |prev[i - 1]|
  {
    UniformSplit(prev, w, next, c);
    forall i | 2 <= i < |next| ensures next[i] == prev[i - 1] {
      assert next[i] == next[2..][i - 2];
    }
  }

  /** Three boxes of one colour holding one, one and two samples. */
  lemma UniformShape(boxes: seq<seq<RGB>>, c: RGB)
    requires AllOf(boxes, c) && |boxes| == 3 && |boxes[0]| == 1 && |boxes[1]| == 1 && |boxes[2]| == 2
    ensures boxes == [[c], [c], [c, c]]
  {
    assert boxes[0] == [c] && boxes[1] == [c] && boxes[2] == [c, c];
  }

  /**
   * MedianCutPalette of the older version: no colours for k <= 0; otherwise
   * exactly k colours: one median per box, then the last one repeated. The
   * boxes share out the samples; there are at most k of them, and fewer only
   * when the loop stalled. No samples give k blacks. Every colour of a
   * non-empty input lies in the input's bounding box. Only the first split
   * reorders the caller's buffer.
   */
  method MedianCutPalette(pixels: array<RGB>, k: int)
    returns (palette: seq<RGB>, ghost boxes: seq<seq<RGB>>, ghost trace: seq<seq<seq<RGB>>>, ghost choices: seq<int>)
    modifies pixels
    ensures multiset(pixels[..]) == old(multiset(pixels[..]))
    ensures k >= 1 ==> Run(old(pixels[..]), trace, choices) && trace[|trace| - 1] == boxes
    ensures k <= 0 ==> palette == []
    ensures k >= 1 ==> |palette| == k
    ensures k >= 1 ==> 1 <= |boxes| <= k && Pool(boxes) == multiset(old(pixels[..]))
    ensures k >= 1 ==> forall i :: 0 <= i < |boxes| ==> palette[i] == MedianColorOf(boxes[i])
    ensures k >= 1 ==> forall i :: |boxes| <= i < k ==> palette[i] == palette[|boxes| - 1]
    ensures k >= 1 && |boxes| < k ==> Stalled(boxes)
    ensures k == 1 ==> palette == [MedianColorOf(old(pixels[..]))]
    ensures k == 1 ==> pixels[..] == old(pixels[..])
    ensures k >= 1 && pixels.Length > 0 ==> forall i :: 0 <= i < |boxes| ==> |boxes[i]| > 0
    ensures k >= 1 && pixels.Length == 0 ==> forall i :: 0 <= i < k ==> palette[i] == Black
    ensures pixels.Length > 0 ==> forall i :: 0 <= i < |palette| ==> InBoundingBox(palette[i], old(pixels[..]))
  {
    boxes, trace, choices := [], [], [];
    if k <= 0 {
      return [], boxes, trace, choices;
    }
    var bx;
    bx, trace, choices := SplitBoxes(pixels, k);
    palette := ReduceBoxes(bx, k);
    boxes := bx;
    if pixels.Length > 0 {
      PaletteInBoundingBox(boxes, palette, old(pixels[..]));
    } else {
      EmptyBoxesAreBlack(boxes, palette);
    }
  }

  /**
   * The splitting loop of the older MedianCutPalette: at most k boxes
   * sharing out the samples; with fewer than k, the loop stalled.
   * A non-empty input gives non-empty boxes.
   */
  method SplitBoxes(pixels: array<RGB>, k: int) returns (bx: seq<seq<RGB>>, ghost trace: seq<seq<seq<RGB>>>, ghost choices: seq<int>)
    requires k >= 1
    modifies pixels
    ensures multiset(pixels[..]) == old(multiset(pixels[..]))
    ensures Run(old(pixels[..]), trace, choices) && trace[|trace| - 1] == bx
    ensures 1 <= |bx| <= k && Pool(bx) == multiset(old(pixels[..]))
    ensures |bx| < k ==> Stalled(bx)
    ensures k == 1 ==> bx == [old(pixels[..])] && pixels[..] == old(pixels[..])
    ensures pixels.Length > 0 ==> forall i :: 0 <= i < |bx| ==> |bx[i]| > 0
    ensures pixels.Length == 0 ==> forall i :: 0 <= i < |bx| ==> |bx[i]| == 0
  {
    bx := [pixels[..]];
    assert Pool(bx) == multiset(pixels[..]) by { assert bx[..0] == []; }
    ghost var stopAt := -1;
    trace, choices := [bx], [];
    while |bx| < k
      invariant 1 <= |bx| <= k
      invariant Run(old(pixels[..]), trace, choices) && trace[|trace| - 1] == bx
      invariant Pool(bx) == multiset(old(pixels[..]))
      invariant |bx| == 1 ==> bx[0] == pixels[..] == old(pixels[..])
      invariant multiset(pixels[..]) == old(multiset(pixels[..]))
      invariant pixels.Length > 0 ==> forall i :: 0 <= i < |bx| ==> |bx[i]| > 0
      invariant pixels.Length == 0 ==> |bx| == 1
      decreases k - |bx|
    {
      var w := WidestBox(bx);
      if |bx[w]| <= 1 {
        stopAt := w;
        break;
      }
      if pixels.Length == 0 {
        // The only box is the empty buffer, which was not split above.
        assert false;
      }
      var next := ReplaceBox(pixels, bx, w);
      RunSnoc(old(pixels[..]), trace, choices, w, next);
      trace, choices := trace + [next], choices + [w];
      bx := next;
    }
    assert |bx| < k ==> IsWidest(bx, stopAt) && |bx[stopAt]| <= 1;
  }

  /**
   * The reduction and padding of the older MedianCutPalette: one median per
   * box, then the last median repeated up to k colours (there is always at
   * least one box, so the padding loop's emptiness test never stops it).
   */
  method ReduceBoxes(bx: seq<seq<RGB>>, k: int) returns (palette: seq<RGB>)
    requires 1 <= |bx| <= k
    ensures |palette| == k
    ensures forall i :: 0 <= i < |bx| ==> palette[i] == MedianColorOf(bx[i])
    ensures forall i :: |bx| <= i < k ==> palette[i] == palette[|bx| - 1]
  {
    var medians := BoxColors(bx);
    palette := MedianCut.PadWithLast(medians, k);
    assert forall i :: 0 <= i < |bx| ==> palette[i] == palette[..|bx|][i];
  }

  /** The reduction loop of the older MedianCutPalette: one medianColor per box. */
  method BoxColors(bx: seq<seq<RGB>>) returns (palette: seq<RGB>)
    ensures |palette| == |bx|
    ensures forall t :: 0 <= t < |bx| ==> palette[t] == MedianColorOf(bx[t])
  {
    palette := [];
    var i := 0;
    while i < |bx|
      invariant 0 <= i <= |bx|
      invariant |palette| == i
      invariant forall t :: 0 <= t < i ==> palette[t] == MedianColorOf(bx[t])
    {
      var c := MedianColor(bx[i]);
      palette := palette + [c];
      i := i + 1;
    }
  }

  /** Medians of boxes, padded with the last, lie in the bounding box of all the samples. */
  lemma PaletteInBoundingBox(boxes: seq<seq<RGB>>, palette: seq<RGB>, pxs: seq<RGB>)
    requires 0 < |boxes| <= |palette| && Pool(boxes) == multiset(pxs)
    requires forall i :: 0 <= i < |boxes| ==> |boxes[i]| > 0 && palette[i] == MedianColorOf(boxes[i])
    requires forall i :: |boxes| <= i < |palette| ==> palette[i] == palette[|boxes| - 1]
    ensures forall i :: 0 <= i < |palette| ==> InBoundingBox(palette[i], pxs)
  {
    forall t | 0 <= t < |boxes| ensures InBoundingBox(palette[t], pxs) {
      MedianInBoundingBox(boxes[t]);
      BoxInPool(boxes, t);
      BoundingBoxMonotone(palette[t], boxes[t], pxs);
    }
  }

  /** Empty boxes reduce to black, and so does the padding after them. */
  lemma EmptyBoxesAreBlack(boxes: seq<seq<RGB>>, palette: seq<RGB>)
    requires 0 < |boxes| <= |palette|
    requires forall i :: 0 <= i < |boxes| ==> |boxes[i]| == 0 && palette[i] == MedianColorOf(boxes[i])
    requires forall i :: |boxes| <= i < |palette| ==> palette[i] == palette[|boxes| - 1]
    ensures forall i :: 0 <= i < |palette| ==> palette[i] == Black
  {
  }

  // ---------------------------------------------------------------------
  // Counting

  /**
   * Stands for math.MaxFloat64, the starting best distance: any value above
   * the largest squared distance, 3 * 255 * 255, behaves the same, since the
   * first palette entry always beats it.
   */
  const FarAway := 3 * 255 * 255 + 1

  /**
   * The nearest-entry scan of the older version: the best distance starts
   * above every possible distance and the scan starts at entry 0, keeping
   * the first entry of least distance.
   */
  method NearestIndex(px: RGB, palette: seq<RGB>) returns (bestIdx: int)
    requires |palette| > 0
    ensures bestIdx == Nearest(px, palette)
  {
    bestIdx := 0;
    var bestDist := FarAway;
    var i := 0;
    while i < |palette|
      invariant 0 <= i <= |palette|
      invariant i == 0 ==> bestIdx == 0 && bestDist == FarAway
      invariant i > 0 ==> bestIdx == Nearest(px, palette[..i]) && bestDist == DistanceSq(px, palette[bestIdx])
    {
      if i > 0 {
        assert palette[..i + 1][..i] == palette[..i];
      } else {
        assert palette[..1] == [palette[0]];
      }
      var d := DistanceSq(px, palette[i]);
      if d < bestDist {
        bestDist := d;
        bestIdx := i;
      }
      i := i + 1;
    }
    assert palette[..i] == palette;
  }

  /**
   * CountOccurrences of the older version: one pass, no chunking. With no
   * palette entries a pixel would be counted in an entry that does not
   * exist, hence the precondition. Each pixel is counted once, at its
   * nearest entry.
   */
  method CountOccurrences(pixels: seq<RGB>, palette: seq<RGB>) returns (counts: seq<int>)
    requires |palette| > 0 || |pixels| == 0
    ensures counts == Histogram(pixels, palette)
    ensures Sum(counts) == |pixels|
  {
    counts := Zeros(|palette|);
    assert pixels[..0] == [];
    HistogramEmpty(palette);
    SumZeros(|palette|);
    var idx := 0;
    while idx < |pixels|
      invariant 0 <= idx <= |pixels|
      invariant counts == Histogram(pixels[..idx], palette)
    {
      counts := CountPixel(pixels, palette, counts, idx);
      idx := idx + 1;
    }
    assert pixels[..idx] == pixels;
    if |palette| > 0 {
      HistogramTotal(pixels, palette);
    }
  }

  /** One step of the counting loop: pixel `idx` adds one to its nearest entry. */
  method CountPixel(pixels: seq<RGB>, palette: seq<RGB>, counts: seq<int>, idx: int) returns (counts': seq<int>)
    requires |palette| > 0 && 0 <= idx < |pixels|
    requires counts == Histogram(pixels[..idx], palette)
    ensures counts' == Histogram(pixels[..idx + 1], palette)
  {
    var bestIdx := NearestIndex(pixels[idx], palette);
    assert pixels[..idx + 1] == pixels[..idx] + [pixels[idx]];
    HistogramSnoc(pixels[..idx], pixels[idx], palette);
    counts' := counts[bestIdx := counts[bestIdx] + 1];
  }
}
