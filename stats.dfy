/**
 * Per-channel statistics that both quantiser versions define with the same
 * code: the channel range of a sample set, the choice of the dominant
 * channel for a split, and the rounded mean colour.
 */
module Stats {
  import opened Colors

  /**
   * channelRange: max - min of one channel, computed in one pass from the
   * starting values min = 255, max = 0; 0 for an empty slice.
   */
  method ChannelRange(pxs: seq<RGB>, ch: Channel) returns (r: int)
    ensures r == Spread(pxs, ch)
    ensures 0 <= r <= 255
    ensures |pxs| > 0 ==> exists i, j :: 0 <= i < |pxs| && 0 <= j < |pxs| && r == Key(pxs[i], ch) - Key(pxs[j], ch)
  {
    SpreadBounds(pxs, ch);
    if |pxs| == 0 {
      return 0;
    }
    var ks := Keys(pxs, ch);
    var minv, maxv := 255, 0;
    var i := 0;
    while i < |pxs|
      invariant 0 <= i <= |pxs|
      invariant i == 0 ==> minv == 255 && maxv == 0
      invariant i > 0 ==> minv == Min(ks[..i]) && maxv == Max(ks[..i])
    {
      var v := Key(pxs[i], ch) as int;
      BoundsStep(ks, i);
      if v < minv {
        minv := v;
      }
      if v > maxv {
        maxv := v;
      }
      i := i + 1;
    }
    assert ks[..i] == ks;
    r := maxv - minv;
    SpreadWitness(pxs, ch);
  }

  /** Extending a prefix by one value updates its minimum and maximum by one comparison. */
  lemma BoundsStep(ks: seq<int>, i: int)
    requires 0 <= i < |ks|
    ensures i == 0 ==> Min(ks[..1]) == ks[0] && Max(ks[..1]) == ks[0]
    ensures i > 0 ==> Min(ks[..i + 1]) == (if ks[i] < Min(ks[..i]) then ks[i] else Min(ks[..i]))
    ensures i > 0 ==> Max(ks[..i + 1]) == (if ks[i] > Max(ks[..i]) then ks[i] else Max(ks[..i]))
  {
    assert ks[..i + 1][..i] == ks[..i];
  }

  /** The spread of a non-empty sample set is the difference of two of its samples. */
  lemma SpreadWitness(pxs: seq<RGB>, ch: Channel)
    requires |pxs| > 0
    ensures exists i, j :: 0 <= i < |pxs| && 0 <= j < |pxs| && Spread(pxs, ch) == Key(pxs[i], ch) - Key(pxs[j], ch)
  {
    var ks := Keys(pxs, ch);
    MinMaxMembers(ks);
    var i :| 0 <= i < |ks| && ks[i] == Max(ks);
    var j :| 0 <= j < |ks| && ks[j] == Min(ks);
    assert Spread(pxs, ch) == Key(pxs[i], ch) - Key(pxs[j], ch);
  }

  /**
   * The dominant channel of a split: the first of red, green, blue whose
   * range is strictly greatest (ties go to the earlier channel).
   */
  method DominantChannel(pxs: seq<RGB>) returns (ch: Channel)
    ensures forall c: Channel :: Spread(pxs, c) <= Spread(pxs, ch)
    ensures forall c: Channel :: c < ch ==> Spread(pxs, c) < Spread(pxs, ch)
  {
    var r0 := ChannelRange(pxs, 0);
    var r1 := ChannelRange(pxs, 1);
    var r2 := ChannelRange(pxs, 2);
    var ranges := [r0, r1, r2];
    ch := 0;
    if ranges[1] > ranges[ch] {
      ch := 1;
    }
    if ranges[2] > ranges[ch] {
      ch := 2;
    }
  }

  /** The dominant channel as a value: the first channel of greatest range. */
  ghost function Dominant(pxs: seq<RGB>): (ch: Channel)
    ensures forall c: Channel :: Spread(pxs, c) <= Spread(pxs, ch)
    ensures forall c: Channel :: c < ch ==> Spread(pxs, c) < Spread(pxs, ch)
  {
    if Spread(pxs, 0) >= Spread(pxs, 1) && Spread(pxs, 0) >= Spread(pxs, 2) then 0
    else if Spread(pxs, 1) >= Spread(pxs, 2) then 1
    else 2
  }

  /** Being greatest, and strictly greater than every earlier channel, determines the channel. */
  lemma DominantUnique(pxs: seq<RGB>, ch: Channel)
    requires forall c: Channel :: Spread(pxs, c) <= Spread(pxs, ch)
    requires forall c: Channel :: c < ch ==> Spread(pxs, c) < Spread(pxs, ch)
    ensures ch == Dominant(pxs)
  {
  }

  /**
   * The round-half-up quotient sum / n: the nearest integer, with an exact
   * half rounded up. It stays within 0..255 when the sum is at most 255 per
   * sample.
   */
  function RoundedMean(sum: int, n: int): (q: int)
    requires n > 0 && 0 <= sum <= 255 * n
    ensures 0 <= q <= 255
    ensures 2 * n * q - n <= 2 * sum < 2 * n * q + n
  {
    var q := (2 * sum + n) / (2 * n);
    DivBounds(2 * sum + n, 2 * n, q);
    assert q * (2 * n) < 256 * (2 * n);
    MulLtCancel(q, 256, 2 * n);
    q
  }

  lemma DivBounds(x: int, d: int, q: int)
    requires d > 0 && x >= 0 && q == x / d
    ensures q >= 0 && q * d <= x < q * d + d
  {
  }

  lemma MulLtCancel(a: int, b: int, m: int)
    requires m > 0 && a * m < b * m
    ensures a < b
  {
  }

  /**
   * The rounded mean colour (averageColor), as an integer round-half-up of
   * each channel's sum over the sample count.
   */
  function MeanColor(pxs: seq<RGB>): (c: RGB)
    requires |pxs| > 0
  {
    var n := |pxs|;
    ChannelSumBounds(pxs, 0);
    ChannelSumBounds(pxs, 1);
    ChannelSumBounds(pxs, 2);
    RGB(RoundedMean(Sum(Keys(pxs, 0)), n),
        RoundedMean(Sum(Keys(pxs, 1)), n),
        RoundedMean(Sum(Keys(pxs, 2)), n))
  }

  lemma ChannelSumBounds(pxs: seq<RGB>, ch: Channel)
    ensures 0 <= Sum(Keys(pxs, ch)) <= 255 * |pxs|
  {
    SumBounds(Keys(pxs, ch), 0, 255);
  }

  /**
   * averageColor: black for no samples, otherwise the per-channel mean
   * rounded half up.
   */
  method AverageColor(pxs: seq<RGB>) returns (c: RGB)
    ensures |pxs| == 0 ==> c == Black
    ensures |pxs| > 0 ==> c == MeanColor(pxs)
  {
    if |pxs| == 0 {
      return Black;
    }
    var rs, gs, bs := Keys(pxs, 0), Keys(pxs, 1), Keys(pxs, 2);
    var rsum, gsum, bsum := 0, 0, 0;
    var i := 0;
    while i < |pxs|
      invariant 0 <= i <= |pxs|
      invariant rsum == Sum(rs[..i]) && gsum == Sum(gs[..i]) && bsum == Sum(bs[..i])
    {
      SumStep(rs, i);
      SumStep(gs, i);
      SumStep(bs, i);
      rsum := rsum + pxs[i].r;
      gsum := gsum + pxs[i].g;
      bsum := bsum + pxs[i].b;
      i := i + 1;
    }
    assert rs[..i] == rs && gs[..i] == gs && bs[..i] == bs;
    var n := |pxs|;
    ChannelSumBounds(pxs, 0);
    ChannelSumBounds(pxs, 1);
    ChannelSumBounds(pxs, 2);
    c := RGB(RoundedMean(rsum, n), RoundedMean(gsum, n), RoundedMean(bsum, n));
  }

  /** A running sum grows by the next value. */
  lemma SumStep(s: seq<int>, i: int)
    requires 0 <= i < |s|
    ensures Sum(s[..i + 1]) == Sum(s[..i]) + s[i]
  {
    assert s[..i + 1][..i] == s[..i];
  }

  /** Each channel of the rounded mean lies between that channel's minimum and maximum. */
  lemma MeanInBoundingBox(pxs: seq<RGB>)
    requires |pxs| > 0
    ensures InBoundingBox(MeanColor(pxs), pxs)
  {
    forall ch: Channel
      ensures Min(Keys(pxs, ch)) <= Key(MeanColor(pxs), ch) <= Max(Keys(pxs, ch))
    {
      var ks, n := Keys(pxs, ch), |pxs|;
      SumBounds(ks, Min(ks), Max(ks));
      ChannelSumBounds(pxs, ch);
      RoundedMeanWithin(Sum(ks), n, Min(ks), Max(ks));
    }
  }

  /**
   * The mean of two samples rounds an exact half up: black and (10, 0, 0)
   * give (5, 0, 0), black and (5, 0, 0) give (3, 0, 0).
   */
  lemma MeanOfPair(a: RGB, b: RGB)
    ensures MeanColor([a, b]) == RGB((a.r + b.r + 1) / 2, (a.g + b.g + 1) / 2, (a.b + b.b + 1) / 2)
    ensures MeanColor([Black, RGB(10, 0, 0)]) == RGB(5, 0, 0)
    ensures MeanColor([Black, RGB(5, 0, 0)]) == RGB(3, 0, 0)
  {
    SumOfPair(a, b);
    SumOfPair(Black, RGB(10, 0, 0));
    SumOfPair(Black, RGB(5, 0, 0));
  }

  lemma SumOfPair(a: RGB, b: RGB)
    ensures forall ch: Channel :: Sum(Keys([a, b], ch)) == Key(a, ch) + Key(b, ch)
  {
    forall ch: Channel ensures Sum(Keys([a, b], ch)) == Key(a, ch) + Key(b, ch) {
      var ks := Keys([a, b], ch);
      assert ks[..1] == [Key(a, ch)];
      assert Sum(ks[..1]) == Sum(ks[..1][..0]) + Key(a, ch);
      assert ks[..1][..0] == [];
    }
  }

  /** A rounded mean of values in lo..hi lies in lo..hi. */
  lemma RoundedMeanWithin(sum: int, n: int, lo: int, hi: int)
    requires n > 0 && 0 <= sum <= 255 * n
    requires n * lo <= sum <= n * hi
    ensures lo <= RoundedMean(sum, n) <= hi
  {
    var q, m := RoundedMean(sum, n), 2 * n;
    DivBounds(2 * sum + n, m, q);
    // (q + 1) m > 2 sum + n, and q m <= 2 sum + n
    if q < lo {
      MulLe(q + 1, lo, m);
    }
    if q > hi {
      MulLe(hi + 1, q, m);
    }
  }

  /** A truncated mean of values in lo..hi lies in lo..hi. */
  lemma TruncatedMeanWithin(sum: int, n: int, lo: int, hi: int)
    requires n > 0 && 0 <= sum
    requires n * lo <= sum <= n * hi
    ensures lo <= sum / n <= hi
  {
    var q := sum / n;
    assert q * n <= sum < q * n + n;
    if q < lo {
      MulLe(q + 1, lo, n);
    }
    if q > hi {
      MulLe(hi + 1, q, n);
    }
  }
}
