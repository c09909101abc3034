/**
 * Frequency counting for the quantiser the command line calls
 * (src/palette.go): every pixel is assigned to its nearest palette entry
 * and the assignments are tallied, either in one pass or in contiguous
 * chunks whose partial tallies are merged.
 *
 * The chunks run as goroutines in the source; each writes only its own slot
 * of the partial results and the merge waits for all of them, so running
 * them one after another yields the same result. The number of workers is
 * a parameter.
 */
module Classify {
  import opened Colors

  /** The linear scan for the nearest entry: the first index of least distance. */
  method NearestIndex(px: RGB, palette: seq<RGB>) returns (bestIdx: int)
    requires |palette| > 0
    ensures bestIdx == Nearest(px, palette)
  {
    bestIdx := 0;
    var best := DistanceSq(px, palette[0]);
    var i := 1;
    assert palette[..1] == [palette[0]];
    while i < |palette|
      invariant 1 <= i <= |palette|
      invariant bestIdx == Nearest(px, palette[..i]) && best == DistanceSq(px, palette[bestIdx])
    {
      NearestSnoc(px, palette, i);
      var d := DistanceSq(px, palette[i]);
      if d < best {
        best := d;
        bestIdx := i;
      }
      i := i + 1;
    }
    assert palette[..i] == palette;
  }

  /** The counting loop over `pixels[from..to]`, as both paths run it. */
  method CountRange(pixels: seq<RGB>, palette: seq<RGB>, from: int, to: int) returns (cnt: seq<int>)
    requires |palette| > 0 && 0 <= from <= to <= |pixels|
    ensures cnt == Histogram(pixels[from..to], palette)
  {
    cnt := Zeros(|palette|);
    CountEmpty(pixels, palette, from);
    var idx := from;
    while idx < to
      invariant from <= idx <= to
      invariant Tallied(cnt, pixels, palette, from, idx)
    {
      cnt := Tally(pixels, palette, cnt, from, idx);
      idx := idx + 1;
    }
  }

  /** `cnt` is the histogram of `pixels[from..idx]`. */
  ghost predicate Tallied(cnt: seq<int>, pixels: seq<RGB>, palette: seq<RGB>, from: int, idx: int)
  {
    |palette| > 0 && 0 <= from <= idx <= |pixels| && cnt == Histogram(pixels[from..idx], palette)
  }

  lemma CountEmpty(pixels: seq<RGB>, palette: seq<RGB>, from: int)
    requires |palette| > 0 && 0 <= from <= |pixels|
    ensures Tallied(Zeros(|palette|), pixels, palette, from, from)
  {
    assert pixels[from..from] == [];
    HistogramEmpty(palette);
  }

  /** One loop step: classify pixel `idx` and increment its entry's count. */
  method Tally(pixels: seq<RGB>, palette: seq<RGB>, cnt: seq<int>, ghost from: int, idx: int) returns (cnt': seq<int>)
    requires 0 <= idx < |pixels| && Tallied(cnt, pixels, palette, from, idx)
    ensures Tallied(cnt', pixels, palette, from, idx + 1)
  {
    var bestIdx := NearestIndex(pixels[idx], palette);
    assert pixels[from..idx + 1] == pixels[from..idx] + [pixels[idx]];
    HistogramSnoc(pixels[from..idx], pixels[idx], palette);
    cnt' := cnt[bestIdx := cnt[bestIdx] + 1];
  }

  /**
   * The chunks `parts` tile `[0, n)`: non-empty, contiguous, in order, from 0
   * to n, each at most `step` long.
   */
  ghost predicate Tiles(parts: seq<(int, int)>, n: int, step: int)
  {
    |parts| > 0 && parts[0].0 == 0 && parts[|parts| - 1].1 == n &&
    (forall k :: 0 <= k < |parts| ==> 0 <= parts[k].0 && parts[k].1 <= n) &&
    (forall k :: 0 <= k < |parts| ==> parts[k].0 < parts[k].1 <= parts[k].0 + step) &&
    (forall k :: 0 <= k < |parts| - 1 ==> parts[k].1 == parts[k + 1].0)
  }

  /**
   * The chunking of CountOccurrences: `step = ceil(n / workers)` and chunks
   * `[i, min(i + step, n))` for i = 0, step, 2 step, ... below n. They tile
   * `[0, n)` and there are no more of them than workers.
   */
  method SplitParts(n: int, workers: int) returns (parts: seq<(int, int)>)
    requires n > 0 && workers > 0
    ensures Tiles(parts, n, (n + workers - 1) / workers)
    ensures Aligned(parts, (n + workers - 1) / workers)
    ensures |parts| <= workers
  {
    var step := (n + workers - 1) / workers;
    StepCovers(n, workers, step);
    parts := Chunks(n, step);
    FewerPartsThanWorkers(n, workers, step, |parts|);
  }

  /** The chunking loop: `[i, min(i + step, n))` for i = 0, step, 2 step, ... below n. */
  method Chunks(n: int, step: int) returns (parts: seq<(int, int)>)
    requires n > 0 && step >= 1
    ensures Tiles(parts, n, step) && Aligned(parts, step) && (|parts| - 1) * step < n
  {
    parts := [];
    var i := 0;
    while i < n
      invariant 0 <= i && i == |parts| * step
      invariant Prefix(parts, i, n, step) && Aligned(parts, step)
      decreases n - i
    {
      var j := i + step;
      if j > n {
        j := n;
      }
      PrefixStep(parts, i, j, n, step);
      AlignedStep(parts, i, j, step);
      MulSucc(|parts|, step);
      parts := parts + [(i, j)];
      i := i + step;
    }
    MulSucc(|parts| - 1, step);
  }

  /**
   * The chunks made before position `i` of the chunking loop: tiles of
   * `[0, min(i, n))` of length at most `step`, the last one starting at
   * `i - step`.
   */
  ghost predicate Prefix(parts: seq<(int, int)>, i: int, n: int, step: int)
  {
    (|parts| > 0 ==> parts[0].0 == 0 && parts[|parts| - 1].1 == (if i < n then i else n)) &&
    (|parts| > 0 ==> parts[|parts| - 1].0 == i - step) &&
    (forall k :: 0 <= k < |parts| ==> parts[k].0 < parts[k].1 <= parts[k].0 + step) &&
    (forall k :: 0 <= k < |parts| ==> 0 <= parts[k].0 && parts[k].1 <= n) &&
    (forall k :: 0 <= k < |parts| - 1 ==> parts[k].1 == parts[k + 1].0)
  }

  /** Appending the chunk `[i, j)`, with j = min(i + step, n), extends the tiling. */
  lemma PrefixStep(parts: seq<(int, int)>, i: int, j: int, n: int, step: int)
    requires step >= 1 && 0 <= i < n && (|parts| == 0 <==> i == 0) && Prefix(parts, i, n, step)
    requires j == (if i + step > n then n else i + step)
    ensures Prefix(parts + [(i, j)], i + step, n, step)
  {
    var parts' := parts + [(i, j)];
    assert forall k :: 0 <= k < |parts| ==> parts'[k] == parts[k];
  }

  /** Chunk `k` starts at `k * step`. */
  ghost predicate Aligned(parts: seq<(int, int)>, step: int)
  {
    forall k :: 0 <= k < |parts| ==> parts[k].0 == k * step
  }

  /** A chunk starting at `|parts| * step` keeps the chunks aligned. */
  lemma AlignedStep(parts: seq<(int, int)>, i: int, j: int, step: int)
    requires Aligned(parts, step) && i == |parts| * step
    ensures Aligned(parts + [(i, j)], step)
  {
    var parts' := parts + [(i, j)];
    assert forall k :: 0 <= k < |parts| ==> parts'[k] == parts[k];
  }

  lemma MulSucc(m: int, step: int)
    ensures (m + 1) * step == m * step + step
  {
  }

  /** ceil(n / workers) is positive and `workers` chunks of it cover n. */
  lemma StepCovers(n: int, workers: int, step: int)
    requires n > 0 && workers > 0 && step == (n + workers - 1) / workers
    ensures step >= 1 && n <= workers * step
  {
    assert step * workers <= n + workers - 1 < step * workers + workers;
  }

  /** If m - 1 chunks of `step` fall short of n, and `workers` chunks cover n, then m <= workers. */
  lemma FewerPartsThanWorkers(n: int, workers: int, step: int, m: int)
    requires step >= 1 && m >= 1 && n <= workers * step && (m - 1) * step < n
    ensures m <= workers
  {
    if m > workers {
      MulLe(workers, m - 1, step);
    }
  }

  /** The histogram of `pixels[..b]` is that of `pixels[..a]` plus that of the chunk `pixels[a..b]`. */
  lemma HistogramOfTiles(pixels: seq<RGB>, palette: seq<RGB>, a: int, b: int)
    requires |palette| > 0 && 0 <= a <= b <= |pixels|
    ensures Histogram(pixels[..b], palette) == Add(Histogram(pixels[..a], palette), Histogram(pixels[a..b], palette))
  {
    assert pixels[..b] == pixels[..a] + pixels[a..b];
    HistogramAppend(pixels[..a], pixels[a..b], palette);
  }

  /** Merging the partial histogram of `pixels[a..b]` into that of `pixels[..a]`. */
  method MergeChunk(pixels: seq<RGB>, palette: seq<RGB>, counts: seq<int>, partial: seq<int>, ghost a: int, ghost b: int)
    returns (counts': seq<int>)
    requires |palette| > 0 && 0 <= a <= b <= |pixels|
    requires counts == Histogram(pixels[..a], palette) && partial == Histogram(pixels[a..b], palette)
    ensures counts' == Histogram(pixels[..b], palette)
  {
    HistogramOfTiles(pixels, palette, a, b);
    counts' := MergeInto(counts, partial);
  }

  /** The merge step: adds a partial histogram into the running one, entry by entry. */
  method MergeInto(counts: seq<int>, p: seq<int>) returns (counts': seq<int>)
    requires |p| == |counts|
    ensures counts' == Add(counts, p)
  {
    counts' := counts;
    var i := 0;
    while i < |counts'|
      invariant 0 <= i <= |counts'| == |counts|
      invariant forall t :: 0 <= t < i ==> counts'[t] == counts[t] + p[t]
      invariant forall t :: i <= t < |counts| ==> counts'[t] == counts[t]
    {
      counts' := counts'[i := counts'[i] + p[i]];
      i := i + 1;
    }
  }

  /**
   * CountOccurrences: zeros when there are no entries or no pixels; one
   * counting pass when there are fewer than two workers or fewer than 5000
   * pixels; otherwise a partial histogram per chunk, merged. Either way
   * the result is the histogram of nearest entries, and it accounts for
   * every pixel exactly once.
   */
  method CountOccurrences(pixels: seq<RGB>, palette: seq<RGB>, workers: int) returns (counts: seq<int>)
    ensures |counts| == |palette|
    ensures |palette| > 0 ==> counts == Histogram(pixels, palette) && Sum(counts) == |pixels|
  {
    if |palette| == 0 || |pixels| == 0 {
      if |palette| > 0 {
        HistogramEmpty(palette);
        SumZeros(|palette|);
      }
      return Zeros(|palette|);
    }
    HistogramTotal(pixels, palette);
    if workers < 2 || |pixels| < 5000 {
      counts := CountRange(pixels, palette, 0, |pixels|);
      assert pixels[0..|pixels|] == pixels;
      return counts;
    }
    ghost var step := (|pixels| + workers - 1) / workers;
    var parts := SplitParts(|pixels|, workers);
    assert Tiles(parts, |pixels|, step);
    assert forall k :: 0 <= k < |parts| ==> 0 <= parts[k].0 <= parts[k].1 <= |pixels|;
    var partials := CountChunks(pixels, palette, parts);
    counts := MergePartials(pixels, palette, parts, partials, step);
  }

  /** The per-chunk pass: one partial histogram per chunk, in chunk order. */
  method CountChunks(pixels: seq<RGB>, palette: seq<RGB>, parts: seq<(int, int)>) returns (partials: seq<seq<int>>)
    requires |palette| > 0
    requires forall k :: 0 <= k < |parts| ==> 0 <= parts[k].0 <= parts[k].1 <= |pixels|
    ensures |partials| == |parts|
    ensures forall m :: 0 <= m < |parts| ==> partials[m] == Histogram(pixels[parts[m].0..parts[m].1], palette)
  {
    partials := [];
    var idx := 0;
    while idx < |parts|
      invariant 0 <= idx <= |parts| && |partials| == idx
      invariant forall m :: 0 <= m < idx ==> partials[m] == Histogram(pixels[parts[m].0..parts[m].1], palette)
    {
      var cnt := CountRange(pixels, palette, parts[idx].0, parts[idx].1);
      partials := partials + [cnt];
      idx := idx + 1;
    }
  }

  /**
   * The merge: adding the partial histograms of chunks that tile the pixels
   * gives the histogram of all of them.
   */
  method MergePartials(pixels: seq<RGB>, palette: seq<RGB>, parts: seq<(int, int)>, partials: seq<seq<int>>, ghost step: int)
    returns (counts: seq<int>)
    requires |palette| > 0 && Tiles(parts, |pixels|, step) && |partials| == |parts|
    requires forall m :: 0 <= m < |parts| ==> partials[m] == Histogram(pixels[parts[m].0..parts[m].1], palette)
    ensures counts == Histogram(pixels, palette)
  {
    counts := Zeros(|palette|);
    HistogramEmpty(palette);
    assert pixels[..0] == [];
    var m, done := 0, 0;
    while m < |partials|
      invariant 0 <= m <= |partials|
      invariant done == (if m == 0 then 0 else parts[m - 1].1)
      invariant Merged(counts, pixels, palette, done)
    {
      TileStart(parts, |pixels|, step, m);
      counts := MergeChunk(pixels, palette, counts, partials[m], done, parts[m].1);
      done := parts[m].1;
      m := m + 1;
    }
    assert pixels[..done] == pixels;
  }

  /** `counts` is the histogram of the first `done` pixels. */
  ghost predicate Merged(counts: seq<int>, pixels: seq<RGB>, palette: seq<RGB>, done: int)
  {
    |palette| > 0 && 0 <= done <= |pixels| && counts == Histogram(pixels[..done], palette)
  }

  /** Chunk `m` starts where chunk `m - 1` ends (at 0 for the first) and ends within `[0, n]`. */
  lemma TileStart(parts: seq<(int, int)>, n: int, step: int, m: int)
    requires Tiles(parts, n, step) && 0 <= m < |parts|
    ensures parts[m].0 == (if m == 0 then 0 else parts[m - 1].1)
    ensures 0 <= parts[m].0 <= parts[m].1 <= n
  {
  }
}
