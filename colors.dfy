/**
 * The value vocabulary shared by both quantiser versions: 8-bit channels,
 * RGB colours, per-channel keys, and the reference (specification)
 * definitions that the imperative operations are proved against:
 * channel minimum/maximum/spread, channel sums, the pool of samples held by
 * a list of boxes, nearest-palette-entry classification and histograms.
 * Also two pure helpers that both Go files define: the `#RRGGBB` hex
 * rendering, which they write the same way, and the squared distance, which
 * the current version computes on ints and the older one on float64. One
 * integer definition serves both: every squared distance of 8-bit channels
 * is a whole number of at most 3 * 255 * 255, which float64 holds exactly.
 */
module Colors {

  type uint8 = x: int | 0 <= x < 256

  /** A channel selector: 0 is red, 1 is green, 2 is blue. */
  type Channel = c: int | 0 <= c < 3

  datatype RGB = RGB(r: uint8, g: uint8, b: uint8)

  const Black := RGB(0, 0, 0)
  const White := RGB(255, 255, 255)

  /** channelValue: the selected channel of a colour (0 red, 1 green, 2 blue). */
  function Key(c: RGB, ch: Channel): (v: uint8)
  {
    match ch
    case 0 => c.r
    case 1 => c.g
    case _ => c.b
  }

  /** A colour is determined by its three channel values. */
  lemma KeysDetermineColor(c1: RGB, c2: RGB)
    ensures (forall ch: Channel :: Key(c1, ch) == Key(c2, ch)) <==> c1 == c2
  {
    if forall ch: Channel :: Key(c1, ch) == Key(c2, ch) {
      assert Key(c1, 0) == Key(c2, 0) && Key(c1, 1) == Key(c2, 1) && Key(c1, 2) == Key(c2, 2);
    }
  }

  /** The selected channel of every sample, in order. */
  function Keys(pxs: seq<RGB>, ch: Channel): (ks: seq<int>)
    ensures |ks| == |pxs|
    ensures forall i :: 0 <= i < |pxs| ==> ks[i] == Key(pxs[i], ch)
  {
    seq(|pxs|, i requires 0 <= i < |pxs| => Key(pxs[i], ch) as int)
  }

  // ---------------------------------------------------------------------
  // Minimum, maximum and spread of integer sequences

  function Min(s: seq<int>): (m: int)
    requires |s| > 0
    ensures forall i :: 0 <= i < |s| ==> m <= s[i]
  {
    if |s| == 1 then s[0]
    else
      var m' := Min(s[..|s| - 1]);
      assert s[..|s| - 1][0] == s[0];
      if s[|s| - 1] < m' then s[|s| - 1] else m'
  }

  function Max(s: seq<int>): (m: int)
    requires |s| > 0
    ensures forall i :: 0 <= i < |s| ==> s[i] <= m
  {
    if |s| == 1 then s[0]
    else
      var m' := Max(s[..|s| - 1]);
      assert s[..|s| - 1][0] == s[0];
      if s[|s| - 1] > m' then s[|s| - 1] else m'
  }

  /** The minimum and the maximum are elements of the sequence. */
  lemma {:induction false} MinMaxMembers(s: seq<int>)
    requires |s| > 0
    ensures Min(s) in s && Max(s) in s
    decreases |s|
  {
    if |s| > 1 {
      MinMaxMembers(s[..|s| - 1]);
      assert forall x :: x in s[..|s| - 1] ==> x in s;
    }
  }

  /** max - min over one channel, 0 for no samples. */
  function Spread(pxs: seq<RGB>, ch: Channel): (d: int)
  {
    if |pxs| == 0 then 0 else Max(Keys(pxs, ch)) - Min(Keys(pxs, ch))
  }

  /** The greatest spread over the three channels. */
  function MaxSpread(pxs: seq<RGB>): (d: int)
  {
    var r, g, b := Spread(pxs, 0), Spread(pxs, 1), Spread(pxs, 2);
    if b > (if g > r then g else r) then b else if g > r then g else r
  }

  lemma SpreadBounds(pxs: seq<RGB>, ch: Channel)
    ensures 0 <= Spread(pxs, ch) <= 255
    ensures 0 <= MaxSpread(pxs) <= 255
  {
    forall c: Channel ensures 0 <= Spread(pxs, c) <= 255 {
      if |pxs| > 0 {
        var ks := Keys(pxs, c);
        MinMaxMembers(ks);
        assert Min(ks) <= ks[0] <= Max(ks);
      }
    }
  }

  /** A value drawn from a sequence lies between that sequence's minimum and maximum. */
  lemma MemberWithinBounds(s: seq<int>, v: int)
    requires v in multiset(s)
    ensures |s| > 0 && Min(s) <= v <= Max(s)
  {
    assert v in s;
  }

  /** The channel bounds of a sub-multiset of samples lie within those of the whole. */
  lemma SubBounds(small: seq<RGB>, big: seq<RGB>, ch: Channel)
    requires |small| > 0
    requires multiset(small) <= multiset(big)
    ensures |big| > 0
    ensures Min(Keys(big, ch)) <= Min(Keys(small, ch))
    ensures Max(Keys(small, ch)) <= Max(Keys(big, ch))
  {
    var ks, kb := Keys(small, ch), Keys(big, ch);
    MinMaxMembers(ks);
    var i :| 0 <= i < |ks| && ks[i] == Min(ks);
    var i' :| 0 <= i' < |ks| && ks[i'] == Max(ks);
    assert small[i] in multiset(big) && small[i'] in multiset(big);
    var j :| 0 <= j < |big| && big[j] == small[i];
    var j' :| 0 <= j' < |big| && big[j'] == small[i'];
    assert kb[j] == ks[i] && kb[j'] == ks[i'];
  }

  /**
   * A colour lies in the bounding box of a non-empty sample set when each of
   * its channels lies between that channel's minimum and maximum.
   */
  ghost predicate InBoundingBox(c: RGB, pxs: seq<RGB>)
  {
    |pxs| > 0 &&
    forall ch: Channel :: Min(Keys(pxs, ch)) <= Key(c, ch) <= Max(Keys(pxs, ch))
  }

  /** The bounding box of a sub-multiset lies inside the bounding box of the whole. */
  lemma BoundingBoxMonotone(c: RGB, small: seq<RGB>, big: seq<RGB>)
    requires InBoundingBox(c, small)
    requires multiset(small) <= multiset(big)
    ensures InBoundingBox(c, big)
  {
    forall ch: Channel
      ensures Min(Keys(big, ch)) <= Key(c, ch) <= Max(Keys(big, ch))
    {
      SubBounds(small, big, ch);
    }
  }

  // ---------------------------------------------------------------------
  // Channel sums

  function Sum(s: seq<int>): (total: int)
  {
    if |s| == 0 then 0 else Sum(s[..|s| - 1]) + s[|s| - 1]
  }

  lemma {:induction false} SumBounds(s: seq<int>, lo: int, hi: int)
    requires forall i :: 0 <= i < |s| ==> lo <= s[i] <= hi
    ensures |s| * lo <= Sum(s) <= |s| * hi
    decreases |s|
  {
    if |s| > 0 {
      var n, init := |s|, s[..|s| - 1];
      SumBounds(init, lo, hi);
      assert Sum(s) == Sum(init) + s[n - 1];
      assert lo <= s[n - 1] <= hi;
      assert (n - 1) * lo + lo == n * lo && (n - 1) * hi + hi == n * hi;
    }
  }

  // ---------------------------------------------------------------------
  // Boxes: the samples held by a list of boxes

  /** The multiset of all samples held by a list of boxes. */
  function Pool(boxes: seq<seq<RGB>>): (pool: multiset<RGB>)
  {
    if |boxes| == 0 then multiset{} else Pool(boxes[..|boxes| - 1]) + multiset(boxes[|boxes| - 1])
  }

  lemma {:induction false} PoolAppend(a: seq<seq<RGB>>, b: seq<seq<RGB>>)
    ensures Pool(a + b) == Pool(a) + Pool(b)
    decreases |b|
  {
    if |b| == 0 {
      assert a + b == a;
    } else {
      assert (a + b)[..|a + b| - 1] == a + b[..|b| - 1];
      PoolAppend(a, b[..|b| - 1]);
    }
  }

  /** Replacing box `w` changes the pool by exactly that box's samples. */
  lemma PoolUpdate(boxes: seq<seq<RGB>>, w: nat, x: seq<RGB>)
    requires w < |boxes|
    ensures Pool(boxes[w := x]) + multiset(boxes[w]) == Pool(boxes) + multiset(x)
  {
    var pre, post := boxes[..w], boxes[w + 1..];
    assert boxes == pre + [boxes[w]] + post;
    assert boxes[w := x] == pre + [x] + post;
    PoolAppend(pre + [boxes[w]], post);
    PoolAppend(pre + [x], post);
    PoolAppend(pre, [boxes[w]]);
    PoolAppend(pre, [x]);
    assert Pool([x]) == multiset(x) by { assert [x][..0] == []; }
    assert Pool([boxes[w]]) == multiset(boxes[w]) by { assert [boxes[w]][..0] == []; }
  }

  /** Every box's samples are part of the pool. */
  lemma BoxInPool(boxes: seq<seq<RGB>>, w: nat)
    requires w < |boxes|
    ensures multiset(boxes[w]) <= Pool(boxes)
  {
    var pre, post := boxes[..w], boxes[w + 1..];
    assert boxes == pre + [boxes[w]] + post;
    PoolAppend(pre + [boxes[w]], post);
    PoolAppend(pre, [boxes[w]]);
    assert Pool([boxes[w]]) == multiset(boxes[w]) by { assert [boxes[w]][..0] == []; }
  }

  /** If no box holds two samples, the pool has at most one sample per box. */
  lemma {:induction false} PoolOfSmallBoxes(boxes: seq<seq<RGB>>)
    requires forall i :: 0 <= i < |boxes| ==> |boxes[i]| <= 1
    ensures |Pool(boxes)| <= |boxes|
  {
    if |boxes| > 0 {
      PoolOfSmallBoxes(boxes[..|boxes| - 1]);
    }
  }

  // ---------------------------------------------------------------------
  // Distances, nearest palette entry and histograms

  /** colorDistanceSqInt: squared Euclidean distance in RGB space. */
  function DistanceSq(a: RGB, b: RGB): (d: int)
    ensures 0 <= d <= 3 * 255 * 255
    ensures d == 0 <==> a == b
  {
    var dr, dg, db := a.r - b.r, a.g - b.g, a.b - b.b;
    SquareBounds(dr);
    SquareBounds(dg);
    SquareBounds(db);
    dr * dr + dg * dg + db * db
  }

  lemma SquareBounds(x: int)
    requires -255 <= x <= 255
    ensures 0 <= x * x <= 255 * 255
    ensures x * x == 0 <==> x == 0
  {
    var y := if x < 0 then -x else x;
    assert x * x == y * y;
    MulLe(y, 255, y);
    MulLe(y, 255, 255);
    if y > 0 {
      MulLe(1, y, y);
    }
  }

  lemma MulLe(a: int, b: int, c: int)
    requires 0 <= a <= b && 0 <= c
    ensures a * c <= b * c
  {
  }

  /**
   * The index of the nearest palette entry: the first index whose distance is
   * minimal, because each scan keeps its best with a strict `<`.
   */
  function Nearest(p: RGB, pal: seq<RGB>): (i: nat)
    requires |pal| > 0
    ensures i < |pal|
    ensures forall j :: 0 <= j < |pal| ==> DistanceSq(p, pal[i]) <= DistanceSq(p, pal[j])
    ensures forall j :: 0 <= j < i ==> DistanceSq(p, pal[i]) < DistanceSq(p, pal[j])
  {
    if |pal| == 1 then 0
    else
      var i' := Nearest(p, pal[..|pal| - 1]);
      if DistanceSq(p, pal[|pal| - 1]) < DistanceSq(p, pal[i']) then |pal| - 1 else i'
  }

  /** One more palette entry takes over only when strictly closer. */
  lemma NearestSnoc(p: RGB, pal: seq<RGB>, i: nat)
    requires 1 <= i < |pal|
    ensures Nearest(p, pal[..i + 1]) ==
              if DistanceSq(p, pal[i]) < DistanceSq(p, pal[Nearest(p, pal[..i])]) then i else Nearest(p, pal[..i])
  {
    assert pal[..i + 1][..i] == pal[..i];
  }

  /** The two properties of `Nearest` determine it. */
  lemma NearestUnique(p: RGB, pal: seq<RGB>, i: nat)
    requires i < |pal|
    requires forall j :: 0 <= j < |pal| ==> DistanceSq(p, pal[i]) <= DistanceSq(p, pal[j])
    requires forall j :: 0 <= j < i ==> DistanceSq(p, pal[i]) < DistanceSq(p, pal[j])
    ensures i == Nearest(p, pal)
  {
  }

  /**
   * Classifying a palette colour against its own palette yields the first
   * index holding that colour; with distinct colours, its own index.
   */
  lemma NearestOfMember(pal: seq<RGB>, i: nat)
    requires i < |pal|
    requires forall j :: 0 <= j < i ==> pal[j] != pal[i]
    ensures Nearest(pal[i], pal) == i
  {
    NearestUnique(pal[i], pal, i);
  }

  /** How many samples have palette entry `t` as their nearest. */
  function CountNearest(pxs: seq<RGB>, pal: seq<RGB>, t: int): (n: nat)
    requires |pal| > 0
  {
    if |pxs| == 0 then 0
    else CountNearest(pxs[..|pxs| - 1], pal, t) + (if Nearest(pxs[|pxs| - 1], pal) == t then 1 else 0)
  }

  /**
   * The reference histogram: one count per palette entry. An empty palette
   * is allowed only with no samples.
   */
  function Histogram(pxs: seq<RGB>, pal: seq<RGB>): (h: seq<int>)
    requires |pal| > 0 || |pxs| == 0
    ensures |h| == |pal|
  {
    if |pal| == 0 then []
    else seq(|pal|, t requires 0 <= t < |pal| => CountNearest(pxs, pal, t) as int)
  }

  function Zeros(n: nat): (z: seq<int>)
    ensures |z| == n && forall i :: 0 <= i < n ==> z[i] == 0
  {
    seq(n, _ => 0)
  }

  /** Element-wise sum of two histograms. */
  function Add(a: seq<int>, b: seq<int>): (c: seq<int>)
    requires |a| == |b|
    ensures |c| == |a| && forall i :: 0 <= i < |a| ==> c[i] == a[i] + b[i]
  {
    seq(|a|, i requires 0 <= i < |a| => a[i] + b[i])
  }

  lemma HistogramEmpty(pal: seq<RGB>)
    ensures Histogram([], pal) == Zeros(|pal|)
  {
  }

  lemma {:induction false} CountNearestAppend(a: seq<RGB>, b: seq<RGB>, pal: seq<RGB>, t: int)
    requires |pal| > 0
    ensures CountNearest(a + b, pal, t) == CountNearest(a, pal, t) + CountNearest(b, pal, t)
    decreases |b|
  {
    if |b| == 0 {
      assert a + b == a;
    } else {
      assert (a + b)[..|a + b| - 1] == a + b[..|b| - 1];
      CountNearestAppend(a, b[..|b| - 1], pal, t);
    }
  }

  /**
   * Merging histograms of two consecutive runs of samples gives the
   * histogram of the whole run: chunked counting equals sequential counting.
   */
  lemma HistogramAppend(a: seq<RGB>, b: seq<RGB>, pal: seq<RGB>)
    requires |pal| > 0
    ensures Histogram(a + b, pal) == Add(Histogram(a, pal), Histogram(b, pal))
  {
    var h, ha, hb := Histogram(a + b, pal), Histogram(a, pal), Histogram(b, pal);
    forall t | 0 <= t < |pal|
      ensures h[t] == ha[t] + hb[t]
    {
      CountNearestAppend(a, b, pal, t);
    }
    assert h == Add(ha, hb);
  }

  /** Adding one sample increments exactly its nearest entry's count. */
  lemma HistogramSnoc(pxs: seq<RGB>, p: RGB, pal: seq<RGB>)
    requires |pal| > 0
    ensures Histogram(pxs + [p], pal) ==
            Histogram(pxs, pal)[Nearest(p, pal) := Histogram(pxs, pal)[Nearest(p, pal)] + 1]
  {
    var q := pxs + [p];
    assert q[..|q| - 1] == pxs;
    var n := Nearest(p, pal);
    var h, h' := Histogram(pxs, pal), Histogram(q, pal);
    forall t | 0 <= t < |pal|
      ensures h'[t] == h[n := h[n] + 1][t]
    {
      assert h'[t] == CountNearest(q, pal, t);
      assert CountNearest(q, pal, t) == CountNearest(pxs, pal, t) + (if n == t then 1 else 0);
    }
  }

  lemma {:induction false} SumIncrement(h: seq<int>, i: nat)
    requires i < |h|
    ensures Sum(h[i := h[i] + 1]) == Sum(h) + 1
    decreases |h|
  {
    if i < |h| - 1 {
      assert h[i := h[i] + 1][..|h| - 1] == h[..|h| - 1][i := h[i] + 1];
      SumIncrement(h[..|h| - 1], i);
    } else {
      assert h[i := h[i] + 1][..|h| - 1] == h[..|h| - 1];
    }
  }

  lemma {:induction false} SumZeros(n: nat)
    ensures Sum(Zeros(n)) == 0
  {
    if n > 0 {
      assert Zeros(n)[..n - 1] == Zeros(n - 1);
      SumZeros(n - 1);
    }
  }

  /** Every sample is counted exactly once: the counts add up to the number of samples. */
  lemma {:induction false} HistogramTotal(pxs: seq<RGB>, pal: seq<RGB>)
    requires |pal| > 0
    ensures Sum(Histogram(pxs, pal)) == |pxs|
    decreases |pxs|
  {
    if |pxs| == 0 {
      HistogramEmpty(pal);
      SumZeros(|pal|);
    } else {
      var init, p := pxs[..|pxs| - 1], pxs[|pxs| - 1];
      assert pxs == init + [p];
      HistogramTotal(init, pal);
      HistogramSnoc(init, p, pal);
      SumIncrement(Histogram(init, pal), Nearest(p, pal));
    }
  }

  // ---------------------------------------------------------------------
  // Hex rendering

  const HexDigits := "0123456789ABCDEF"

  /** toHex: `#` and two upper-case hex digits per channel (`%02X`). */
  function ToHex(c: RGB): (s: string)
    ensures |s| == 7 && s[0] == '#'
  {
    ['#', HexDigits[c.r / 16], HexDigits[c.r % 16],
          HexDigits[c.g / 16], HexDigits[c.g % 16],
          HexDigits[c.b / 16], HexDigits[c.b % 16]]
  }

  /** The value of an upper-case hex digit, if it is one. */
  function DigitValue(d: char): (v: int)
    ensures -1 <= v < 16
    ensures 0 <= v ==> HexDigits[v] == d
  {
    if '0' <= d <= '9' then d as int - '0' as int
    else if 'A' <= d <= 'F' then d as int - 'A' as int + 10
    else -1
  }

  /** Reads two hex digits back into a channel value, if both are digits. */
  function ParseByte(hi: char, lo: char): (b: Option<uint8>)
  {
    var h, l := DigitValue(hi), DigitValue(lo);
    if h < 0 || l < 0 then None else Some(h * 16 + l)
  }

  /** Reads `#RRGGBB` back into a colour. */
  function ParseHex(s: string): (c: Option<RGB>)
  {
    if |s| != 7 || s[0] != '#' then None
    else match (ParseByte(s[1], s[2]), ParseByte(s[3], s[4]), ParseByte(s[5], s[6]))
      case (Some(r), Some(g), Some(b)) => Some(RGB(r, g, b))
      case _ => None
  }

  datatype Option<T> = None | Some(value: T)

  lemma DigitRoundTrip(v: int)
    requires 0 <= v < 16
    ensures DigitValue(HexDigits[v]) == v
  {
  }

  /** The hex rendering decodes back to the colour it came from. */
  lemma HexRoundTrip(c: RGB)
    ensures ParseHex(ToHex(c)) == Some(c)
  {
    ByteRoundTrip(c.r);
    ByteRoundTrip(c.g);
    ByteRoundTrip(c.b);
  }

  lemma ByteRoundTrip(v: uint8)
    ensures ParseByte(HexDigits[v / 16], HexDigits[v % 16]) == Some(v)
  {
    DigitRoundTrip(v / 16);
    DigitRoundTrip(v % 16);
  }
}
