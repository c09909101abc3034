# Median-cut palette extraction, modelled in Dafny

The program extracts a colour palette from images. It reduces an image's
pixels to `k` representative colours with a median-cut quantiser, counts how
many pixels fall nearest to each colour, and reports the colours as
`#RRGGBB` codes ordered by count. The repository holds two versions of the
quantiser:

- `src/palette.go` is the version the command line calls. It splits boxes
  by an in-place quickselect (a Hoare partition) along the dominant channel.
  It reduces boxes with truncated means or quickselected "medians". It counts
  pixels either in one pass or in contiguous chunks whose partial histograms
  are summed.
- `internal/palette/palette.go` is the older version. It splits by sorting,
  takes true per-channel medians, chooses the box to split among all boxes
  and stops as soon as the chosen box cannot be split.

Both versions are modelled separately. The functions that are the same code
in both files (`channelRange`, the dominant-channel choice, `averageColor`,
`makeEntries`, `toHex`) are modelled once and shared. Two helpers of
`src/main.go` are also modelled: the image-name filter and the output-name
rewrite.

Modules:

| module | file | models |
|---|---|---|
| `Colors` | colors.dfy | colours, channel keys and the reference definitions the operations are proved against: min/max/spread, sums, pools of boxes, nearest entry, histograms, hex codes |
| `Sorting` | sorting.dfy | Go's `sort.Slice`/`sort.Ints` as an in-place sort by key, and a reference sorted order of integer sequences |
| `Select` | select.dfy | `partitionByChannel`, `nthElementByChannel`, `partitionUint8`, `quickSelectUint8` (src) |
| `Stats` | stats.dfy | `channelRange`, the dominant channel, `averageColor` (both versions) |
| `MedianCut` | median_cut.dfy | `medianCutSplit`, `nthElementR/G/B`, `medianColor`, `MedianCutPalette` (src) |
| `Classify` | classify.dfy | `CountOccurrences` with its sequential path and its chunk-and-merge path (src) |
| `Ranking` | ranking.dfy | `makeEntries` (both versions) |
| `Legacy` | legacy.dfy | `medianCutSplit`, `medianColor`, `MedianCutPalette`, `CountOccurrences` (internal) |
| `FileNames` | file_names.dfy | `isSupportedImage`, `replaceExt` (src/main.go) |

Operations that update buffers in place are methods over arrays. This covers
the partitions, the selections, the sorts and the splits, which reorder the
caller's pixel buffer. Each method is proved against a reference function or
predicate. Growing lists are sequences that the loops reassign: the box list,
the palette and the histograms. `channelValue` is the function `Colors.Key`.
`colorDistanceSqInt` and the older `colorDistanceSq` are both
`Colors.DistanceSq`, because every float64 distance is an exact integer of at
most 3 * 255 * 255.

## Model

| member | source | states |
|---|---|---|
| Colors.Key | src/palette.go:136-145 | channelValue: channel 0 is red, 1 is green, 2 is blue (the channel type holds only 0..2); its partner is Colors.KeysDetermineColor |
| Colors.KeysDetermineColor | src/palette.go:136-145 | channelValue with channels 0, 1 and 2 gives red, green and blue, and two colours are equal exactly when all three channel values agree |
| Colors.SpreadBounds | src/palette.go:72-95 | a channel range (max - min, 0 for no samples) and the greatest of the three are always within 0..255 |
| Colors.DistanceSq | src/palette.go:419-424 | the squared distance is between 0 and 3 * 255 * 255, and it is 0 exactly when the two colours are equal |
| Colors.Nearest | src/palette.go:359-368 | the classified index is the first index of least distance: no entry is nearer, and every earlier entry is strictly farther |
| Colors.NearestUnique | src/palette.go:359-368 | those two properties determine the classified index |
| Colors.NearestOfMember | src/palette.go:359-369 | a palette colour is counted at its own index, or at the first earlier index holding the same colour |
| Colors.HistogramAppend | src/palette.go:408-415 | the histogram of two consecutive runs of pixels is the entry-wise sum of their histograms |
| Colors.HistogramSnoc | src/palette.go:369 | one more pixel adds one to the count of its nearest entry and changes no other count |
| Colors.HistogramTotal | src/palette.go:350-372 | the counts add up to the number of pixels: every pixel is counted exactly once |
| Colors.PoolOfSmallBoxes | src/palette.go:326-328 | boxes that each hold at most one sample hold at most as many samples as there are boxes |
| Colors.BoundingBoxMonotone | src/palette.go:336-341 | a colour inside the bounding box of a box is inside the bounding box of any sample set that contains the box |
| Colors.ToHex | src/palette.go:469-471 | the code is seven characters long and starts with '#' |
| Colors.HexRoundTrip | src/palette.go:469-471 | the code parses back to the colour; the parser accepts only upper-case hex digits, so the code is `#RRGGBB` in upper case (same code at internal/palette/palette.go:244-246) |
| Stats.ChannelRange | src/palette.go:72-95 | the min/max loop returns the channel's max - min, 0 for an empty slice, within 0..255, and it is the difference of two samples' values |
| Stats.DominantChannel | src/palette.go:99-107 | the chosen channel has the greatest range, and every earlier channel has a strictly smaller range (ties go to the earlier channel); same code at internal/palette/palette.go:63-70 |
| Stats.Dominant | internal/palette/palette.go:63-70 | the channel the selection picks, as a value: its range is the greatest, and every earlier channel's range is strictly smaller |
| Stats.DominantUnique | internal/palette/palette.go:63-70 | only one channel has those two properties, so the channel DominantChannel returns is Dominant |
| Stats.RoundedMean | src/palette.go:181-184 | the integer quotient is the nearest integer to sum / n with an exact half rounded up, and it lies in 0..255 |
| Stats.AverageColor | src/palette.go:171-186 | black for no samples; otherwise each channel is the rounded mean of that channel's sum over the sample count; same code at internal/palette/palette.go:91-106 |
| Stats.MeanInBoundingBox | src/palette.go:171-186 | each channel of the rounded mean lies between that channel's minimum and maximum |
| Stats.MeanOfPair | src/palette.go:181-184 | two samples average to (a + b + 1) / 2 per channel; black and (10, 0, 0) give (5, 0, 0), and black and (5, 0, 0) give (3, 0, 0) |
| Stats.RoundedMeanWithin | src/palette.go:182-184 | a rounded mean of values in lo..hi lies in lo..hi |
| Stats.TruncatedMeanWithin | src/palette.go:200 | a truncated mean of values in lo..hi lies in lo..hi |
| Sorting.SortByKey | internal/palette/palette.go:72-81 | the buffer ends up in non-decreasing key order and holds the same multiset of elements |
| Sorting.InsertMultiset | internal/palette/palette.go:121-123 | inserting a value into the reference sorted order adds exactly that value |
| Sorting.InsertSorted | internal/palette/palette.go:121-123 | inserting a value into a sorted sequence keeps it sorted |
| Sorting.SortedSeqProperties | internal/palette/palette.go:121-123 | the reference sorted order is sorted and is a permutation of its input |
| Sorting.SortedPermutationUnique | internal/palette/palette.go:121-123 | two sorted permutations of the same integers are equal, so `sort.Ints` has only one possible outcome |
| Sorting.SortedIsSortedSeq | internal/palette/palette.go:121-123 | any sorted permutation of an integer sequence is its reference sorted order |
| Select.PartitionByChannel | src/palette.go:147-169 | returns p with lo <= p <= hi; only [lo, hi] is permuted; keys in [lo, p] are at most, and keys in [p+1, hi] at least, the key that the middle element had on entry |
| Select.NthElementByChannel | src/palette.go:119-134 | the buffer is only permuted, and it is untouched when n <= 0 or n >= len; the narrowing loop terminates |
| Select.PartitionUint8 | src/palette.go:264-281 | the same partition contract over a byte buffer |
| Select.QuickSelectUint8 | src/palette.go:246-262 | on a non-empty buffer it returns one of the buffer's values, hence a value between its minimum and maximum, and only permutes the buffer |
| MedianCut.MedianCutSplit | src/palette.go:98-117 | left has n/2 samples and right the rest; left ++ right is the reordered buffer, which is a permutation of the input |
| MedianCut.NthElement | src/palette.go:222-244 | the value selected from a scratch copy of one channel is one of that channel's values, within its minimum and maximum |
| MedianCut.TruncatedMeanInBoundingBox | src/palette.go:192-201 | the truncated per-channel mean lies in the samples' bounding box |
| MedianCut.MedianColor | src/palette.go:188-220 | black for no samples; the truncated mean for one to three samples; for four or more, per channel a selected channel value (odd count) or the floor of the mean of two channel values (even count); for any non-empty box a colour inside the box's bounding box |
| MedianCut.TruncatedMean | src/palette.go:192-201 | the summing loop computes the per-channel truncated mean |
| MedianCut.ChannelMedian | src/palette.go:202-219 | the odd-count path gives one of the channel's values; the even-count path gives the floor of the mean of two of the channel's values; either lies within the channel's minimum and maximum |
| MedianCut.BoxRange | src/palette.go:311-320 | the greatest of a box's three channel ranges, within 0..255 |
| MedianCut.WidestBox | src/palette.go:305-328 | -1 exactly when no box holds two samples; otherwise the first box of greatest range among those holding at least two samples, whatever that range, 0 included |
| MedianCut.PadWithLast | src/palette.go:343-345 | a non-empty palette keeps its entries and is padded to k entries with copies of its last entry |
| MedianCut.PoolAfterSplit | src/palette.go:332-333 | replacing the chosen box by its left half and appending its right half keeps every sample exactly once |
| MedianCut.SplitBoxes | src/palette.go:300-334 | with 2 <= k < len(pixels) the loop never stops early: exactly k non-empty boxes that share out the input's samples, and the buffer is only permuted; the boxes are the last list of a run: a trace of box lists from the single box holding the input, each pass splitting the box WidestBox picks (the first of greatest range among boxes of two or more samples), replacing it by its lower n/2 samples and appending the other n - n/2, the halves holding exactly its samples |
| MedianCut.SplitAt | src/palette.go:329-333 | box w becomes the left half of n/2 samples, the right half of n - n/2 samples is appended at the end, every other box stays where it was; the halves hold exactly box w's samples, every box stays non-empty and the pool of samples is unchanged |
| MedianCut.RunSnoc | src/palette.go:303-334 | a run extended by one more pass of the loop is a run |
| MedianCut.RunLength | src/palette.go:303-334 | after i passes the run holds i + 1 boxes |
| MedianCut.TwoColourSplit | src/palette.go:300-334 | asked for two colours, the loop cuts the input once: the first box holds n/2 samples and the second n - n/2, between them all the input's samples; five samples give boxes of two and three |
| MedianCut.BoxColors | src/palette.go:336-341 | one colour per box, each what medianColor promises for that box: inside its bounding box, the truncated mean for one to three samples, and per channel a selected value or floored mean of two for four or more |
| MedianCut.MedianCutPalette | src/palette.go:283-347 | nothing for k <= 0; the rounded mean for k = 1; for len(pixels) <= k the pixels padded with the last one; otherwise k non-empty boxes that are the last list of a run of the splitting loop from the whole input (each pass splits the box WidestBox picks into halves of n/2 and n - n/2 samples), one colour each as medianColor promises (the truncated mean for boxes of one to three samples); always k colours inside the input's bounding box; the caller's buffer is only permuted, and is untouched outside the splitting path |
| MedianCut.PaddedInBoundingBox | src/palette.go:291-297 | the pixels padded with the last pixel lie in the pixels' bounding box |
| MedianCut.BoxColorsInBoundingBox | src/palette.go:336-341 | colours inside their boxes' bounding boxes lie in the bounding box of all the samples |
| MedianCut.SampleInBoundingBox | src/palette.go:291-293 | every sample lies in the bounding box of its sample set |
| Colors.NearestSnoc | src/palette.go:362-367 | one more palette entry becomes the nearest only when strictly closer than the nearest so far |
| Classify.NearestIndex | src/palette.go:360-368 | the scan from entry 0 keeping the best with strict `<` returns the first index of least distance |
| Classify.CountRange | src/palette.go:358-370 | the counting loop over pixels[from..to] returns the histogram of nearest entries of exactly those pixels |
| Classify.Tally | src/palette.go:359-369 | one loop step extends the histogram by one pixel |
| Classify.SplitParts | src/palette.go:374-383 | with step = ceil(n / workers), the chunks are [k * step, min((k + 1) * step, n)): chunk k starts at k * step, and they are non-empty, contiguous, in order, cover [0, n), are at most step long, and number at most workers |
| Classify.Chunks | src/palette.go:377-383 | the chunking loop tiles [0, n) with chunks of at most step samples, chunk k starting at k * step |
| Classify.AlignedStep | src/palette.go:377-383 | a chunk appended at i = (number of chunks) * step keeps every chunk k starting at k * step |
| Classify.TileStart | src/palette.go:408-415 | in a tiling each chunk starts where the previous one ends, the first at 0, and lies within [0, n] |
| Classify.StepCovers | src/palette.go:376 | ceil(n / workers) is positive and workers chunks of it cover n |
| Classify.FewerPartsThanWorkers | src/palette.go:375-383 | the chunking loop makes no more chunks than workers |
| Classify.CountChunks | src/palette.go:384-407 | one partial histogram per chunk, each the histogram of that chunk's pixels |
| Classify.MergeInto | src/palette.go:410-414 | adding a partial histogram adds it entry by entry |
| Classify.MergeChunk | src/palette.go:408-415 | merging the partial histogram of the next chunk gives the histogram of all pixels so far |
| Classify.MergePartials | src/palette.go:408-415 | summing the partial histograms of chunks that tile the pixels gives the histogram of all pixels |
| Classify.CountOccurrences | src/palette.go:350-416 | always one count per palette entry; zeros for an empty palette or no pixels; otherwise, for any number of workers, the histogram of nearest entries, whose counts add up to the number of pixels |
| Ranking.MakeEntries | src/palette.go:447-467 | the entries are a rearrangement of the unsorted entries, ordered by non-increasing count; same code at internal/palette/palette.go:222-242 |
| Ranking.BuildEntries | src/palette.go:452-464 | the building loop yields the entries in palette order |
| Ranking.EntriesOfPalette | src/palette.go:447-467 | the report has one line per palette colour, each with its own count, and no other line |
| Ranking.EntryHexDecodes | src/palette.go:462 | every report line's code is seven characters and decodes back to its colour |
| Legacy.MedianCutSplit | internal/palette/palette.go:62-89 | the buffer is sorted in place along the dominant channel and only permuted; left is the first n/2 samples and right the rest; every key in left is at most every key in right |
| Legacy.MedianWithin | internal/palette/palette.go:124-130 | the middle of the sorted channel values lies between the channel's minimum and maximum |
| Legacy.MedianInBoundingBox | internal/palette/palette.go:108-132 | the median colour of a non-empty box lies in the box's bounding box |
| Legacy.MedianOfUniform | internal/palette/palette.go:108-132 | a box of one repeated colour has that colour as its median |
| Legacy.UniformChannel | internal/palette/palette.go:121-130 | one channel of that: the median of a constant channel is the constant |
| Legacy.MedianColor | internal/palette/palette.go:108-132 | black for no samples; otherwise per channel the middle sorted value for odd n, and the two middle sorted values' mean rounded half up for even n |
| Legacy.ChannelBuffers | internal/palette/palette.go:113-120 | three fresh, distinct buffers holding the red, green and blue values |
| Legacy.SortedMiddle | internal/palette/palette.go:121-130 | sorting a channel buffer and taking its middle gives that channel's median |
| Legacy.WidestBox | internal/palette/palette.go:140-157 | the first box of greatest range over all boxes, of any size; box 0 by default |
| Legacy.LeadingStep | internal/palette/palette.go:153-156 | a strictly greater range takes over the choice, an equal one does not |
| Legacy.StallWithSplittableBox | internal/palette/palette.go:159-161 | boxes of one, one and two samples of one colour stall the loop, although the last box could be split |
| Legacy.UniformHasNoRange | internal/palette/palette.go:143-152 | samples of one colour have range 0 |
| Legacy.PoolAfterReplace | internal/palette/palette.go:164 | boxes[:w] ++ [left, right] ++ boxes[w+1:] keeps every sample exactly once and keeps the other boxes in order, those after w one place later |
| Legacy.ReplaceBox | internal/palette/palette.go:163-164 | one split adds exactly one box, keeps the boxes before and after the chosen one, and puts in its place halves of n/2 and n - n/2 samples that hold exactly its samples, every key of the left half at most every key of the right half along the box's dominant channel |
| Legacy.NonEmptyAfterReplace | internal/palette/palette.go:163-164 | replacing a box by two non-empty halves keeps all boxes non-empty |
| Legacy.RunSnoc | internal/palette/palette.go:139-165 | a run extended by one more split is a run |
| Legacy.RunLength | internal/palette/palette.go:139-165 | after i splits the run holds i + 1 boxes |
| Legacy.WidestUnique | internal/palette/palette.go:140-157 | only one box fits the selection rule, so the box a split step names is the one the scan returns |
| Legacy.WidestFirst | internal/palette/palette.go:140-157 | of two boxes that both fit the selection rule, the earlier one is the later one |
| Legacy.EarlierNarrower | internal/palette/palette.go:153-156 | a box before the chosen one has a strictly smaller range, so it cannot be chosen itself |
| Legacy.RunNotStalled | internal/palette/palette.go:159-161 | the loop splits only while the chosen box holds two samples: no box list of a run but the last is stalled |
| Legacy.SortedSplitExample | internal/palette/palette.go:134-175 | black, white, black, white with k = 2: every run and palette the contract allows gives boxes [black, black] and [white, white] and the palette black, white |
| Legacy.SortedSplitBoxes | internal/palette/palette.go:139-165 | the boxes of that run: one split, along red, into two blacks and two whites |
| Legacy.BlackWhiteStart | internal/palette/palette.go:159-161 | the single box of black, white, black, white does not stall the loop |
| Legacy.BlackWhiteSplit | internal/palette/palette.go:163-164 | the first split of black, white, black, white gives [black, black] and [white, white] |
| Legacy.BlackWhiteDominant | internal/palette/palette.go:62-70 | every channel of black, white, black, white spans 0..255, so red is the dominant channel |
| Legacy.HalvesOfBlackWhite | internal/palette/palette.go:72-88 | halves of two samples each, ordered by red, of two blacks and two whites are the blacks then the whites |
| Legacy.TooManyWhites | internal/palette/palette.go:72-88 | a white in the left half forces both right samples to be white |
| Legacy.PaletteOfUniformBoxes | internal/palette/palette.go:167-173 | boxes each of one colour reduce to those colours, the last one repeated |
| Legacy.PaletteOfOneColour | internal/palette/palette.go:167-173 | boxes that all hold only colour c reduce to a palette of c alone, padding included |
| Legacy.StallExample | internal/palette/palette.go:134-175 | four samples of one colour with k = 4: every run and palette the contract allows stops at boxes of one, one and two samples, and the palette is that colour four times |
| Legacy.StallBoxes | internal/palette/palette.go:139-165 | the boxes of that run: [[c, c, c, c]], then [[c, c], [c, c]], then [[c], [c], [c, c]], where box 0 is chosen and holds one sample |
| Legacy.UniformWidest | internal/palette/palette.go:140-157 | among boxes of one colour every range is 0, so the scan picks box 0 |
| Legacy.UniformSplit | internal/palette/palette.go:159-164 | a split of boxes of one colour splits box 0 into halves of that colour, of n/2 and n - n/2 samples, and moves the other boxes up by one |
| Legacy.UniformStep | internal/palette/palette.go:159-164 | after such a split every box is still non-empty and of that colour; box 0 and the new box 1 hold n/2 and n - n/2 samples, and later boxes keep their sizes |
| Legacy.UniformShape | internal/palette/palette.go:134-175 | three boxes of one colour holding one, one and two samples are [[c], [c], [c, c]] |
| Legacy.StalledUniform | internal/palette/palette.go:159-161 | boxes of one colour stall only when box 0 holds at most one sample |
| Legacy.AfterNoSplit | internal/palette/palette.go:138 | four samples of one colour start as one box of four |
| Legacy.AfterOneSplit | internal/palette/palette.go:139-165 | after one split, two boxes of two samples of that colour |
| Legacy.AfterTwoSplits | internal/palette/palette.go:139-165 | after two splits, boxes of one, one and two samples of that colour |
| Legacy.ThirdSplitImpossible | internal/palette/palette.go:159-161 | there is no third split, because the chosen box 0 then holds one sample |
| Legacy.StallAfter | internal/palette/palette.go:159-161 | the loop does not stall before the second split |
| Legacy.SplitBoxes | internal/palette/palette.go:138-165 | 1 to k boxes that share out the samples; fewer than k only when the chosen box holds at most one sample; non-empty boxes for a non-empty input; with k = 1 the whole input, and the buffer untouched; the boxes are the last list of a run: a trace of box lists from the single box holding the input, each step splitting the box the scan picks (first of greatest range, over all boxes), which holds two or more samples, into halves of n/2 and n - n/2 samples that replace it in place, hold exactly its samples and are ordered along its dominant channel |
| Legacy.ReduceBoxes | internal/palette/palette.go:167-173 | k colours: each box's median, then the last median repeated |
| Legacy.BoxColors | internal/palette/palette.go:167-170 | one median colour per box |
| Legacy.PaletteInBoundingBox | internal/palette/palette.go:167-173 | the medians and their padding lie in the bounding box of all the samples |
| Legacy.EmptyBoxesAreBlack | internal/palette/palette.go:167-173 | empty boxes reduce to black, and so does the padding |
| Legacy.MedianCutPalette | internal/palette/palette.go:134-175 | nothing for k <= 0; otherwise exactly k colours, one median per box then the last repeated; the boxes are the last list of a run of the splitting loop from the whole input (as for SplitBoxes), share out the samples, number at most k and fewer only when the loop stalled; no samples give k blacks; k = 1 gives the input's median and leaves the buffer untouched; a non-empty input gives only non-empty boxes; every colour lies in the input's bounding box; the buffer is only permuted |
| Legacy.NearestIndex | internal/palette/palette.go:180-188 | the scan from a distance above every possible one returns the first index of least distance |
| Legacy.CountOccurrences | internal/palette/palette.go:177-192 | with a non-empty palette, or no pixels, the histogram of nearest entries, whose counts add up to the number of pixels |
| Legacy.CountPixel | internal/palette/palette.go:179-190 | one loop step extends the histogram by one pixel |
| FileNames.IsSupportedImage | src/main.go:161-169 | the lower-cased extension is one of .png, .jpg, .jpeg, .gif; so a supported name has an extension of four or five characters starting with '.' |
| FileNames.ToLower | src/main.go:162 | lower-casing keeps the length, leaves no upper-case letter, and changes nothing but upper-case letters |
| FileNames.Ext | src/main.go:162 | the extension is a suffix of the name; when not empty it starts with '.' and contains no other '.' and no '/' |
| FileNames.TrimSuffix | src/main.go:173 | the suffix is removed when the name ends with it, and the name is kept otherwise |
| FileNames.ReplaceExt | src/main.go:172-178 | the name without its extension, followed by the new extension with a '.' put in front when it lacks one |
| FileNames.ExtOfAppend | src/main.go:162 | appending an extension with one leading '.' and no other '.' or '/' makes it the name's extension |
| FileNames.DotIsOptional | src/main.go:174-176 | replaceExt(n, "png") equals replaceExt(n, ".png") |
| FileNames.ReplacedExt | src/main.go:172-178 | the output's extension is exactly the plain extension asked for |
| FileNames.ReplaceExtIdempotent | src/main.go:172-178 | replacing twice with the same plain extension gives the same name as replacing once |
| FileNames.OutputIsSupported | src/main.go:161-178 | every output name the program writes, `replaceExt(n, ".png")`, passes the image filter, for every n including "" |
| FileNames.LowerOfLower | src/main.go:162 | lower-casing leaves a name without upper-case letters unchanged |
| FileNames.UpperCaseAccepted | src/main.go:161-169 | "A.JPG" passes the filter |
| FileNames.ExtWithoutDot | src/main.go:162 | a name without a '.' has no extension |
| FileNames.NoDotRejected | src/main.go:161-169 | a name without a '.', e.g. "png", is rejected |
| FileNames.ExtAfterSeparator | src/main.go:162 | a '.' before the last '/' does not start an extension |
| FileNames.NoDotKeepsName | src/main.go:172-178 | when the last path element has no '.', the whole name is kept and the new extension appended |
| FileNames.NamedExamples | src/main.go:161-178 | "png" is rejected, and "dir.d/file" with "png" becomes "dir.d/file.png" |

## Left out

- `CollectPixels` in both files is not modelled. It reads decoded images through Go's image library. The model starts from the pixel buffer.
- `PrintPaletteText`, `PrintPaletteJSON`, `SavePalettePreview`, `ComposeWithPaletteStrip` and the rest of `src/main.go` are not modelled. They are output, image encoding, flag parsing and directory listing.
- The goroutines, `sync.WaitGroup` and `runtime.GOMAXPROCS` of `CountOccurrences` (src) are not modelled. `workers` is a parameter, and the chunks are counted one after another. Each goroutine writes only its own slot and the merge waits for all of them, so the order does not change the result.
- The float64 `Share` field of a report entry is not modelled. Entries carry colour, count and hex code.
- Stats.AverageColor: `math.Round` of the float64 quotient is modelled as the integer round-half-up `(2 * sum + n) / (2 * n)`. This is exact as long as the float quotient does not land on the wrong side of a half, which needs pixel counts far beyond real images.
- Legacy.MedianColor: `math.Round` of half the sum of two integers is modelled as `(a + b + 1) / 2`. This is exact, because the halves involved are exact in float64.
- The 64-bit integer sums and counts are unbounded integers. No wrap-around occurs for any input that fits in memory.
- `math.MaxFloat64`, the starting best distance of the older scan, is the integer `3 * 255 * 255 + 1`. Any value above the largest possible distance behaves the same.
- Legacy.CountOccurrences: requires a non-empty palette unless there are no pixels, because the source indexes `counts[bestIdx]` with bestIdx = 0 in an empty count slice (internal/palette/palette.go:189) and panics.
- Ranking.MakeEntries: requires at least as many counts as palette colours, because the source reads `counts[i]` for every palette index and panics otherwise.
- FileNames.Ext: only '/' separates path elements. Windows volume names and '\' separators of `filepath.Ext` are not modelled.
- FileNames.IsSupportedImage: `strings.ToLower` is modelled for ASCII letters only. Unicode case folding is not modelled.
- Select.QuickSelectUint8: promises one of the buffer's values and not the k-th smallest. The source does not always deliver the k-th smallest: on [2, 0, 5, 1, 3] with k = 2 it returns 3, because narrowing with `hi = p - 1` drops index p although p is not known to hold its final value. An empty buffer makes the source index out of range, hence the precondition.
- Select.NthElementByChannel: promises a permutation and not that index n holds the n-th smallest key, for the same reason.
- MedianCut.NthElement: promises one of the channel's values, as QuickSelectUint8 does.
- MedianCut.ChannelMedian: promises one of the channel's values (odd count) or the floor of the mean of two of them (even count), not a true median, because the selected values are not exact order statistics.
- MedianCut.MedianColor: promises the exact value only for up to three samples (the truncated mean). For four or more it promises a colour in the bounding box whose channels are selected values or floored means of two, not the median, because the selected values are not exact order statistics.
- MedianCut.MedianCutSplit: promises the halves' sizes and the permutation, but no key ordering between the halves, because the selection is inexact.
- MedianCut.SplitBoxes: each pass of the run states the sizes of the two halves and that they hold the chosen box's samples, but not which samples go to which half, for the same reason as MedianCut.MedianCutSplit.
- MedianCut.MedianCutPalette: with k >= 2 and no pixels, the source indexes an empty slice, hence the precondition. For boxes of four or more samples it states what MedianCut.MedianColor states (bounding box, selected values), not the median colour.
- Sorting.SortByKey: Go's `sort.Slice` is not stable and its algorithm is not specified. The model is an insertion sort that promises exactly what Go promises, order and permutation, and nothing about the order of equal keys.
