# Verified models of the UFWBPP kernels and tools

UFWBPP stacks astronomical exposures. Its speed comes from kernels that
are fast forms of a simple rule, and its safety from small strict tools around the build. This project restates
those parts in Dafny and proves, for all inputs, that the fast form is the simple rule and that the tools keep
what their documentation promises.

| component | what is proved |
|---|---|
| Maximal rectangle | the monotone-stack scan finds the greatest rectangle in the total tuple order, of any mask |
| `ParallelRange` | every interleaving, with exceptions and 64-bit wrap-around: exactly once, no deadlock, finite; exact overflow condition |
| Fast Radon transform | the restricted 16-bit layout equals the dense recursion, which equals sums along digital lines, over the root of their counts; the exact condition under which the peaks are the NumPy reference's |
| Rejection | medians by sorting, selection and merging agree; the sliding window never depends on its history; exactly which samples are accepted, and how many |
| Drizzle | clipping conserves area on any pixel grid; the band's weights and values are those of the counted pixels, and constant frames stay constant; when skipping source pixels loses nothing, exactly for affine maps and, row by row, for projective ones |
| Offset grid | two cached, swapped rows always equal direct bilinear interpolation |
| Lanczos-3 | rows of the table sum to one without a division by zero; cubic interpolation is exact; integer positions copy; the warp treats both axes alike, in any direction |
| Fused integration | the B-spline is a partition of unity; the identity shortcut is exact; sorted pairs stay intact through rejection; what the bisected line minimises, and where it does not |
| Patch applier | exact condition for invertibility; the exact grammar of the accepted texts; parsed patches are exactly the good ones; which patches apply; all or nothing |
| PE imports | no read outside the file; exactly which bytes are an image of any number of sections, and which names they list |
| Call timer | time is conserved per thread over every run |

Code that changes state is modelled by methods and classes over arrays and fields, each proved against a
specification function; the properties of these functions are lemmas beside them. Code made of expressions is
modelled by functions.

Conventions:

- Float32 and Float64 values are `real`; a sample that may be NaN or infinite is `NonFinite` or `Fin(value)`.
- Bytes are a newtype of the integers 0 to 255.
- `size_t` arithmetic of `ParallelRange` and the 16-bit counts of the Radon levels wrap explicitly.
- The square root, `exp`, the disc area and the Float32 test `1 + scale == 1` are function parameters; lemmas that need
  the square root to be one say so.
- A request's `Valid` predicate is what its `Validate` function accepts; the kernels are modelled behind that check.
- A loop that `ParallelRange` splits into row or pixel ranges is modelled by a method on one range that changes
  nothing outside it, and by a caller that covers the whole.

Where a promise does not hold for every input, the condition is proved:

- A chunk can be handed out twice when `(chunks + workers - 1) * grain` reaches the range of `size_t`
  (`WorkClaiming.AtMostOnceIffNoWrap`); the header's comment has no such condition.
- With given parameters the clipped peak search reports on every frame what the NumPy reference, standardised by its own
  sample, reports if and only if the detection level is positive and so is the minimum count or the minimum coverage
  (`RadonMismatch.AgreeIffPositive`; `RadonMismatch.ZeroThresholdDiffers` and `RadonReference.ZeroPeakIsLost` give the
  frames). No 32-bit sample minimum is out of reach: the greatest level has 6442221570 lines.
- Phase 1 keeps half of every pixel's samples if and only if `1.4826 * sigmaClip >= 1`, or the minimum is more frames
  than a stack may have (`MadRejection.KeepsHalfIff`). Phase 2 accepts whatever phase 1 does, for every pool, if and only
  if the frame's scale is at least 1, or again there are too few frames (`MadRejection.AcceptsMoreIff`).
- Under an affine map the drizzle loops lose nothing, over all shifts, frames, bands and chunks, if and only if the
  margin covers the drop and the rise of a level row (`DrizzleAffine.Fits`, `DrizzleCulling.NeverLosesIffFits`). Every
  similarity meets this (`DrizzleTotals.SimilarityFits`), a strong stretch does not
  (`DrizzleTotals.StretchedDropIsLost`).
- Under a projective map one column of slack covers the linear interpolation along a row of `L + 1` columns, over all
  shifts of the output and in any chunk, if and only if `x (L - x) |m6| < 2 |W(x, y)|` for every column `x`, `W` the
  map's denominator (`DrizzleRows.RunIffStraight`). The row's tests lose no square drop if and only if the margin has
  room for every drop and for what the run is off by (`DrizzleRows.RowKeepsIffFits`); `DrizzleRows.BentRow` gives a row
  whose run loses one. Maps with that room in every row and no horizon in the band lose nothing (`DrizzleReach.Gentle`,
  `DrizzleBand.BandOnReference`).
- The inverse of a parsed patch restores the file if and only if every new line ends in a newline unless it ends the
  file, and nothing is appended behind a last line that lacks its newline and stays (`PatchUndo.KeepsLines`,
  `PatchSound.ParsedInverseIff`). The parser and the applier accept a patch that breaks this
  (`PatchSound.OpenLineIsNotUndone`).
- The bisected slope of the linear-fit rejection misses the line of least absolute deviations on tied samples of every
  odd size from five on (`LinearFitTies.TiesLoseTheBest`). Where every tried slope leaves as many values above its line
  as below, as it does where residuals differ, it does not (`LinearFitLaws.BracketKeepsBest`,
  `LinearFitLaws.DistinctIsEven`).
- A patch that names a file twice applies every entry to the bytes before, and the last one wins
  (`PatchTree.FilesAfter`).
- The patch parser accepts an empty path, which is relative and has no parent step.

The patch format is the one of IEEE Std 1003.1-2017, `diff` utility, section "Diff -u or -U Output Format"; the image
format is Microsoft's "PE Format", sections "Optional Header Data Directories (Image Only)", "The .idata Section" and
"Delay-Load Import Tables (Image Only)".

`dafny verify dfyconfig.toml` checks everything.

## Model

| member | source | states |
|---|---|---|
| MaximalRectangle.BaselineHistogram | benchmarks/autocrop_histogram.py:18-37 | the result is a bar that fits under the heights and beats, in the tuple order (area, top, left, bottom, right), every bar that fits; None only when no bar fits |
| MaximalRectangle.BarsAreRectangles | benchmarks/autocrop_histogram.py:43-45 | the bars under the heights of a row are exactly the all-true rectangles of the mask that end in that row |
| MaximalRectangle.ScanMask | benchmarks/autocrop_histogram.py:40-48 | for every mask the result is the greatest all-true rectangle, and None if and only if no cell is true |
| MaximalRectangle.GreatestIsUnique | benchmarks/autocrop_histogram.py:40-48 | the specification leaves one answer: any two greatest rectangles are the same tuple |
| WorkClaiming.SetupIsParallel | native/src/ParallelRange.h:30-40 | the chunk and worker arithmetic, wrap-around included, yields either a direct call or at least two workers and no more workers than chunks |
| WorkClaiming.MostWorkers | native/src/ParallelRange.h:30-36 | as many workers start as the threads allow and as have a first chunk of their own, and one alone when the chunk arithmetic leaves the range of size_t |
| WorkClaiming.StepInv | native/src/ParallelRange.h:41-61 | every step of any worker or of the calling thread keeps the protocol invariant: the claim log is the chunks in order, and the counter is accounted for by chunks and returned workers |
| WorkClaiming.ExecInv | native/src/ParallelRange.h:41-61 | so the invariant holds in every state reachable by any interleaving, whatever is thrown |
| WorkClaiming.AtMostOnce | native/src/ParallelRange.h:47-54 | no interleaving passes an item to the function twice, or an item outside the range, even when workers throw |
| WorkClaiming.EndedCall | native/src/ParallelRange.h:62-71 | when the call has ended all workers have finished; it returns normally if and only if no worker threw, and then every item was passed exactly once |
| WorkClaiming.SlotIffThrown | native/src/ParallelRange.h:55-60 | in every run a worker's error slot is set if and only if the function has thrown in that worker |
| WorkClaiming.EndedByThrows | native/src/ParallelRange.h:69-71 | so an ended call returned if and only if the run has no throw, and what it rethrows is from the lowest-numbered worker that threw |
| WorkClaiming.CounterBound | native/src/ParallelRange.h:49-52 | while a worker may still claim, the counter is at most count + grain - 1 plus one grain per returned worker |
| WorkClaiming.RunsEnd | native/src/ParallelRange.h:47-61 | every run is finite: at most three steps a chunk and four a worker |
| WorkClaiming.NoDeadlock | native/src/ParallelRange.h:64-68 | until the call has ended some step is always possible |
| WorkClaiming.WrapRepeats | native/src/ParallelRange.h:49-53 | when the counter has no room for the late claims, there is an interleaving that wraps it and hands an item out twice |
| WorkClaiming.AtMostOnceIffNoWrap | native/src/ParallelRange.h:41-61 | at-most-once holds over all interleavings if and only if (chunks + workers - 1) grains stay below the range of size_t |
| WorkClaiming.HugeChunksRepeat | native/src/ParallelRange.h:30-54 | an instance through the setup arithmetic: three chunks of 2^62 items on three threads, with an interleaving that passes an item twice |
| OrderStatistics.InsertionSort | native/src/PortableKernels.cpp:377-387 | the insertion sort leaves the first count values ascending and a permutation, and touches no other element |
| OrderStatistics.InsertInPlace | native/src/PortableKernels.cpp:379-386 | one round moves a value below every greater one of the sorted front |
| OrderStatistics.NthElement | native/src/PortableKernels.cpp:360 | the selection permutes the sample, puts the k-th order statistic at k and parts the sample around it |
| OrderStatistics.MaxElement | native/src/PortableKernels.cpp:364 | the maximum of the front is the front's last order statistic |
| OrderStatistics.LowerMiddle | native/src/PortableKernels.cpp:364 | after a selection the maximum in front of the middle is the lower middle value of the whole sample |
| OrderStatistics.MedianOfFinite | native/src/PortableKernels.cpp:357-367 | selection and maximum give the median of the sample, for odd and even counts, and only reorder it |
| OrderStatistics.SortedMedianOfFinite | native/src/PortableKernels.cpp:371-394 | gives the same median, and leaves a sample of at most 64 values ascending |
| OrderStatistics.OrderStatistic | native/src/PortableKernels.cpp:396-400 | a value is the k-th order statistic when at most k values lie below it and more than k do not exceed it |
| OrderStatistics.DeviationsValley | native/src/PortableKernels.cpp:414-425 | the deviations of an ascending sample fall to the split point and rise from it |
| OrderStatistics.TakeLeft | native/src/PortableKernels.cpp:432-437 | taking the left neighbour when it is not farther keeps the taken run the smallest deviations, and the value taken is the next order statistic |
| OrderStatistics.TakeRight | native/src/PortableKernels.cpp:438-442 | and so does taking the right neighbour otherwise |
| OrderStatistics.TakeNearest | native/src/PortableKernels.cpp:429-445 | one merge step stays inside the sample on both sides and delivers the next order statistic of the deviations |
| OrderStatistics.MergeDeviations | native/src/PortableKernels.cpp:416-449 | the two-pointer merge returns the median of the deviations |
| OrderStatistics.SortedMadOfFinite | native/src/PortableKernels.cpp:401-450 | on every ascending non-empty sample and every centre the result is the median of all absolute deviations |
| OrderStatistics.MedianOfPermutation | native/src/PortableKernels.cpp:355-394 | the median depends on the sample only as a multiset |
| OrderStatistics.MadOfPermutation | native/src/PortableKernels.cpp:396-450 | and so does the median absolute deviation about a centre |
| Radon.LineShape | native/src/PortableKernels.cpp:1362-1363 | the line behind an entry starts at offset 0, ends at offset s, and steps by 0 or sign(s) from row to row |
| Radon.DenseIsLineSum | native/src/PortableKernels.cpp:1362-1363 | every entry of the dense recursion is the sum of the image along that one line of its block |
| Radon.DenseVanishes | native/src/PortableKernels.cpp:1321-1325 | every dense entry outside the stored blocks and columns is exactly zero |
| Radon.OutsideVanishes | native/src/PortableKernels.cpp:1371-1374 | in the terms of the stored layout: beyond activeBlocks or outside [lo, hi) the level is zero |
| Radon.CountBound | native/src/PortableKernels.cpp:1334 | a count never exceeds the number of rows of its line, so 16 bits hold it |
| Radon.LayOut | native/src/PortableKernels.cpp:1368-1376 | the fields of the next level describe its active blocks, shifts and columns |
| Radon.Read | native/src/PortableKernels.cpp:1420-1438 | a stored read, with zero outside the layout, is the dense value |
| Radon.Combine | native/src/PortableKernels.cpp:1387-1440 | one stored entry, 16-bit count included, is the dense entry of the doubled block |
| Radon.FillRow | native/src/PortableKernels.cpp:1385-1442 | one row is filled with the dense values of its shift and leaves the rows before it right |
| Radon.NextRadonLevel | native/src/PortableKernels.cpp:1364-1444 | from a level that holds the dense values, the next one holds them too |
| Radon.FirstLevel | native/src/PortableKernels.cpp:1543-1552 | level 1 is the image with its 0/1 weights |
| RadonPeaks.Divisor | native/src/PortableKernels.cpp:1482-1498 | what a level is divided by is always positive, so zeros stay zero and signs stay |
| RadonPeaks.RawValues | native/src/PortableKernels.cpp:1453-1477 | the stored values before standardisation are those of the dense lines, which RadonScale.RawSquared tells by count and sum |
| RadonPeaks.GatherSample | native/src/PortableKernels.cpp:1478-1481 | the sample is the valid values in storage order |
| RadonPeaks.ScaleOf | native/src/PortableKernels.cpp:1482-1494 | the divisor is 1.4826 times the sample's median absolute deviation, or one |
| RadonPeaks.Standardise | native/src/PortableKernels.cpp:1453-1498 | every stored value is the standardised value of its dense line |
| RadonPeaks.IsWindowMaximum | native/src/PortableKernels.cpp:1514-1528 | the clipped loops decide whether no value of the window is greater |
| RadonPeaks.RowPeaks | native/src/PortableKernels.cpp:1500-1533 | one row appends exactly its own peaks |
| RadonPeaks.CollectLevelPeaks | native/src/PortableKernels.cpp:1447-1535 | appends the peaks of the level's standardised values, in storage order, to the ones found before |
| RadonPeaks.NextLevelPeaks | native/src/PortableKernels.cpp:1559-1561 | a level is built and searched only when its lines are long enough |
| RadonPeaks.RadonLinePeaks | native/src/PortableKernels.cpp:1539-1564 | the list is the peaks of every level of minimumRows rows and more, shortest lines first |
| RadonPeaks.PeakMembers | native/src/PortableKernels.cpp:1500-1533 | a peak is in the list if and only if it is the standardised value of a stored peak |
| RadonPeaks.PeaksOrdered | native/src/PortableKernels.cpp:1500-1533 | no peak is listed twice, and they come in block, shift, column order |
| RadonLines.LineMirrored | native/src/PortableKernels.cpp:1362-1363 | the line of the opposite shift is the mirrored line |
| RadonLines.LineReversed | native/src/PortableKernels.cpp:1362-1363 | counted from its other end a line is the same |
| RadonLines.LineIsNear | native/src/PortableKernels.cpp:1362-1363 | every row of a line of n rows is at most half a column per halving of n away from the straight line between its ends |
| RadonScale.ValidIff | native/src/PortableKernels.cpp:1452-1455 | a line is valid if and only if its count reaches the minimum count and the minimum coverage of its rows |
| RadonScale.RawSquared | native/src/PortableKernels.cpp:1470-1474 | under a true root the value of a valid line, squared and times its count, is its sum squared, and the signs agree |
| RadonScale.RawOtherwise | native/src/PortableKernels.cpp:1470-1474 | a line that is not valid has the value zero, and one without weights its sum |
| RadonScale.RawAtMost | native/src/PortableKernels.cpp:1470-1474 | where masked samples are zero, the squared value of a line is at most the sum of the squared samples along that digital line |
| RadonScale.ReportedValue | native/src/PortableKernels.cpp:1490-1498 | a reported value times the level's divisor is the value of the line it names |
| RadonScale.PeakValue | native/src/PortableKernels.cpp:1500-1533 | so every listed peak of such a frame, times the divisor, is bounded by the samples along its own line |
| ScaledSamples.MedianScaled | native/src/PortableKernels.cpp:1344-1357 | the median of a sample in other units is the median in those units |
| ScaledSamples.MadScaled | native/src/PortableKernels.cpp:1483-1489 | and so is the median absolute deviation |
| ScaledSamples.MedianMirrored | native/src/PortableKernels.cpp:1344-1357 | the median takes no side: that of the mirrored sample is the mirrored median |
| ScaledSamples.UnitSpread | native/src/PortableKernels.cpp:1482-1498 | a level with samples enough and any spread has, once divided, a robust spread of one about its own median |
| ScaledSamples.NoSpread | native/src/PortableKernels.cpp:1482-1498 | with too few samples, or no spread, nothing is divided |
| RadonReference.ReferenceIsDense | packages/engine/src/ufwbpp/stacking/transient_rejection.py:325-330 | the NumPy recursion, which clamps the shifted column to the padded array, computes the zero-extended dense sums on the whole array |
| RadonReference.ArraySampleIsStored | packages/engine/src/ufwbpp/stacking/transient_rejection.py:351-358 | with a positive count threshold the sample over every line of the padded array is the sample of the stored lines, in the same order |
| RadonReference.ClippingIsExact | packages/engine/src/ufwbpp/stacking/transient_rejection.py:380 | with a positive detection level and equal divisors a stored position is a clipped-window peak if and only if it is a window maximum of the whole array |
| RadonReference.SameDivisorsAgree | packages/engine/src/ufwbpp/stacking/transient_rejection.py:364-383 | with a positive detection level equal divisors are enough for equal reports |
| RadonReference.PositiveAgree | packages/engine/src/ufwbpp/stacking/transient_rejection.py:364-383 | with both thresholds positive the stored search reports exactly what the reference, standardised by its own sample, reports |
| RadonReference.ZeroPeakIsLost | packages/engine/src/ufwbpp/stacking/transient_rejection.py:379-383 | with a detection level that is not positive the reference reports a peak of a blank frame that the stored search cannot see |
| RadonReference.GeometryAgreesIffPositive | packages/engine/src/ufwbpp/stacking/transient_rejection.py:364-383 | with a positive count threshold the two agree on all frames of a geometry if and only if the detection level is positive |
| RadonReference.SampleCompleteIffPositive | packages/engine/src/ufwbpp/stacking/transient_rejection.py:352-355 | every valid line of the array is a stored one if and only if the count threshold is positive |
| RadonBalance.ArrayDivisor | packages/engine/src/ufwbpp/stacking/transient_rejection.py:355-358 | without a count threshold the reference of a frame no wider than its canvas is high has a majority of zeros, so it divides by 1 |
| RadonMismatch.Divisors | packages/engine/src/ufwbpp/stacking/transient_rejection.py:355-358 | a square frame whose first and last rows are bright, for which a count threshold of zero gives the two searches different divisors, 1.4826 times the value and 1, for every sample minimum up to its number of lines |
| RadonMismatch.ZeroThresholdDiffers | packages/engine/src/ufwbpp/stacking/transient_rejection.py:364-383 | so with a count threshold of zero the two report different peaks of it, for every positive detection level |
| RadonMismatch.AgreeIffPositive | packages/engine/src/ufwbpp/stacking/transient_rejection.py:364-383 | with any given parameters the kernel reports on all frames and levels what the reference does if and only if the detection level is positive and the minimum count or the minimum coverage is |
| RadonMismatch.LevelPeaksAreDense | packages/engine/src/ufwbpp/stacking/transient_rejection.py:364-383 | with a positive detection level and count threshold one level's list is exactly the reference's peaks with their values, in the reference's order |
| RadonMismatch.AllPeaksAreDense | packages/engine/src/ufwbpp/stacking/transient_rejection.py:364-383 | and the whole list is exactly those of all reported levels |
| PooledWindow.WindowLeaves | native/src/PortableKernels.cpp:804-805 | moving the window by one column drops exactly the leaving column's value |
| PooledWindow.WindowEnters | native/src/PortableKernels.cpp:806-808 | and adds exactly the entering one's, borders included |
| PooledWindow.EraseInserted | native/src/PortableKernels.cpp:782-787 | erasing at the lower bound undoes an insertion |
| PooledWindow.PooledMadWindow.constructor | native/src/PortableKernels.cpp:748-754 | a new window is ready for queries on its map, with nothing filled in yet |
| PooledWindow.PooledMadWindow.Insert | native/src/PortableKernels.cpp:775-780 | keeps the sorted values of the multiset with the value added; NaN is ignored |
| PooledWindow.PooledMadWindow.Remove | native/src/PortableKernels.cpp:782-787 | keeps the sorted values of the multiset with the value taken out; NaN is ignored |
| PooledWindow.PooledMadWindow.Rebuild | native/src/PortableKernels.cpp:789-799 | fills the window for any row and column |
| PooledWindow.PooledMadWindow.Step | native/src/PortableKernels.cpp:802-809 | moves the filled window one column and keeps it right |
| PooledWindow.PooledMadWindow.MedianOfColumn | native/src/PortableKernels.cpp:760-771 | whatever the history, the answer is the median of the finite values around the column |
| PooledWindow.PooledMadWindow.MedianAt | native/src/PortableKernels.cpp:756-772 | so after any queries the answer depends on the pixel alone: the median of a freshly built window |
| MadRejection.KeepsHalf | native/src/PortableKernels.cpp:992-1011 | when 1.4826 sigmaClip is at least 1, phase 1 keeps at least half of the finite samples of every pixel |
| MadRejection.SmallClipRejectsAll | native/src/PortableKernels.cpp:992-1011 | with a smaller clip there is, for every size that allows a decision, a sample of which it keeps nothing but a value at the very centre |
| MadRejection.KeepsHalfIff | native/src/PortableKernels.cpp:992-1011 | so over the stacks of at most 65535 frames it keeps half of every pixel if and only if 1.4826 sigmaClip is at least 1 or no such stack has frames enough for a decision |
| MadRejection.Phase2AcceptsMore | native/src/PortableKernels.cpp:870-894 | with a frame scale of at least 1 the pooled scale model accepts every sample that phase 1 accepts, whatever the pool |
| MadRejection.BorderlineLost | native/src/PortableKernels.cpp:870-894 | with a smaller scale there is, for every size that allows a decision, a stack and a pool for which a sample on the threshold of phase 1 is rejected |
| MadRejection.AcceptsMoreIff | native/src/PortableKernels.cpp:870-894 | so over the stacks of at most 65535 frames and all pools the scale model accepts whatever phase 1 does if and only if the scale is at least 1 or no such stack has frames enough for a decision |
| MadRejection.NeutralScaleModel | native/src/PortableKernels.cpp:872-894 | with unit scale and the pixel's own deviation as pool both phases decide identically |
| MadRejection.NoPooling | native/src/PortableKernels.cpp:794-798 | a window of half width 0 pools nothing |
| MadKernel.CollectFinite | native/src/PortableKernels.cpp:954-957 | the scratch buffer starts with the finite samples in order |
| MadKernel.CenterAndMad | native/src/PortableKernels.cpp:958-986 | centre and deviation of a pixel are the median and the median absolute deviation of its finite samples, or NaN when there are too few |
| MadKernel.PixelDeviation | native/src/PortableKernels.cpp:972-986 | the short and the long route give the same deviation, from the reordered scratch buffer |
| MadKernel.DecidePixel | native/src/PortableKernels.cpp:962-1011 | the flags of one pixel are the phase 1 decisions |
| MadKernel.DecideScaledPixel | native/src/PortableKernels.cpp:870-896 | the flags of one pixel are the phase 2 decisions |
| MadKernel.ScaledFlags | native/src/PortableKernels.cpp:857-897 | with the shared sliding window, in any state, the flags depend on the pixel alone |
| MadKernel.ScaledRange | native/src/PortableKernels.cpp:839-906 | a range of pixels gets its phase 2 decisions and no other pixel changes, so ranges can run in any split and order |
| MadKernel.FirstPass | native/src/PortableKernels.cpp:932-1021 | every centre and deviation is recorded, and the decisions are phase 1's unless the scale model is used |
| MadKernel.MadRejectionMask | native/src/PortableKernels.cpp:911-1025 | every flag is the decision of the phase the request selects, and every centre the median of the pixel's finite samples |
| MadKernel.DecisionAcceptsMore | native/src/PortableKernels.cpp:839-906 | with frame scales of at least 1 the flag of the whole kernel, pooled or not, accepts every sample that phase 1 accepts |
| MadKernel.MaskKeepsHalf | native/src/PortableKernels.cpp:911-1025 | and with 1.4826 sigmaClip at least 1 as well, the mask keeps at least half of every pixel's finite samples |
| MadLaws.TooFewAccepted | native/src/PortableKernels.cpp:962-1011 | with fewer frames, or fewer finite samples of the pixel, than the minimum either phase accepts exactly the finite samples |
| MadLaws.Phase1Iff | native/src/PortableKernels.cpp:992-1011 | otherwise phase 1 accepts a finite sample if and only if its distance from the median is within sigmaClip times 1.4826 of the pixel's own deviation, the group floor, the absolute floor, epsilon, or epsilon times the centre's size |
| MadLaws.Phase2Iff | native/src/PortableKernels.cpp:870-896 | and phase 2 if and only if a floor covers the distance, or its square is within the squared clip times the frame's variance: the scaled pool squared and the pixel's own excess over the pool |
| MadLaws.PooledColumns | native/src/PortableKernels.cpp:789-799 | the pooled deviations up to any value are the finite ones of the columns at most halfWidth away in the pixel's own row |
| MadLaws.CenterIff | native/src/PortableKernels.cpp:954-960 | told by the samples of the frames, a pixel has a centre if and only if one is finite, and then half of the finite ones lie on either side of it |
| MadLaws.DecisionIff | native/src/PortableKernels.cpp:911-1025 | told by the samples of the frames at row and column alone, whichever phase runs: a sample of the mask is accepted if and only if it is finite and the samples are too few, or the frame's variance about the pooled median or a floor covers it |
| OffsetGrid.Locate | native/src/OffsetGridKernel.cpp:22-32 | the found pair of nodes encloses the clipped value |
| OffsetGrid.LocateBlends | native/src/OffsetGridKernel.cpp:25-31 | the weight is in [0, 1] and blends the two nodes back to the clipped value |
| OffsetGrid.BilinearReproduced | native/src/OffsetGridKernel.cpp:55-111 | a grid sampled from any bilinear function is reproduced exactly between the nodes and held at the edge outside |
| OffsetGrid.Horizontal | native/src/OffsetGridKernel.cpp:75-80 | a filled row is the horizontal interpolation of its node row |
| OffsetGrid.Fetch | native/src/OffsetGridKernel.cpp:86-104 | from any two cached rows, swapped or refilled, the pair for the wanted nodes comes out right |
| OffsetGrid.AddRow | native/src/OffsetGridKernel.cpp:105-108 | only the addressed row changes, by the blend of the cached rows |
| OffsetGrid.AddRange | native/src/OffsetGridKernel.cpp:69-110 | for any list of row numbers and any range of it, every value grows by the direct clamped bilinear interpolation at its position |
| OffsetGrid.AddOffsetGrid | native/src/OffsetGridKernel.cpp:55-111 | so does the whole call |
| OffsetGrid.AtBetween | native/src/DrizzleKernel.cpp:309-330 | an interpolated value lies between any bounds of the grid |
| PolygonClip.IntersectSymmetric | native/src/DrizzleKernel.cpp:243-252 | where an edge meets a border does not depend on its direction |
| PolygonClip.ClipSum | native/src/DrizzleKernel.cpp:212-232 | an edge weight that vanishes along the border sums over the clip to the parts of the original edges inside the half-plane |
| PolygonClip.AreaOfClip | native/src/DrizzleKernel.cpp:212-232 | the signed area of a clip is the sum over the original edges of their parts inside |
| PolygonClip.AreaSplits | native/src/DrizzleKernel.cpp:212-232 | the signed areas of the clips on the two sides of a border add up to the polygon's, for any closed polygon |
| PolygonClip.NestedArea | native/src/DrizzleKernel.cpp:212-232 | clipping by a containing half-plane first does not change the area of the inner clip |
| ConvexClip.QuadShaped | native/src/DrizzleKernel.cpp:236-242 | a strictly convex quadrilateral turns one way and each coordinate rises and falls once |
| ConvexClip.ClipShaped | native/src/DrizzleKernel.cpp:212-232 | a clip of a convex polygon is convex and turns the same way, and a clip of a polygon whose coordinate rises and falls once is another |
| ConvexClip.ConvexArea | native/src/DrizzleKernel.cpp:198-208 | the signed area of a convex polygon has the sign of its turns |
| ConvexClip.ClipGrowth | native/src/DrizzleKernel.cpp:212-232 | a clip of such a polygon has at most one vertex more |
| DrizzleDrop.SignedConservation | native/src/DrizzleKernel.cpp:236-266 | the signed pixel overlaps of any closed polygon over any covering grid add up to its signed area, early exits included |
| DrizzleDrop.OverlapSign | native/src/DrizzleKernel.cpp:265 | every overlap of a convex drop has the drop's orientation, so the absolute value loses nothing |
| DrizzleDrop.DropConservation | native/src/DrizzleKernel.cpp:236-266 | the overlaps of a convex polygon of any number of vertices over any covering grid add up to exactly its shoelace area |
| DrizzleDrop.OutsideBoxIsZero | native/src/DrizzleKernel.cpp:582-595 | no pixel outside the bounding-box loops has an overlap |
| DrizzleDrop.BoxConservation | native/src/DrizzleKernel.cpp:582-595 | the bounding-box loops deposit exactly the area of every convex quadrilateral, flat and three-cornered ones included |
| DrizzleOverlap.ClipEdge | native/src/DrizzleKernel.cpp:213-232 | the buffer holds the clip, vertex by vertex |
| DrizzleOverlap.PolygonArea | native/src/DrizzleKernel.cpp:198-208 | the loop computes half the absolute shoelace sum |
| DrizzleOverlap.ClipSizes | native/src/DrizzleKernel.cpp:239-264 | the four clips of a convex quadrilateral hold at most 5, 6, 7 and 8 vertices, within the 12-slot buffers |
| ClipBuffer.ClipCrosses | native/src/DrizzleKernel.cpp:213-232 | clipping does not add to how often a polygon crosses any other border |
| ClipBuffer.QuadClipSizes | native/src/DrizzleKernel.cpp:239-264 | so the four clips of any quadrilateral, crossed ones included, hold at most 6, 8, 10 and 12 vertices |
| DrizzleOverlap.QuadPixelOverlap | native/src/DrizzleKernel.cpp:236-266 | for any four corners, convex or not, the two swapped 12-slot buffers give the overlap, with no index outside them and no division by zero |
| HomographyMaps.InverseUndoesMap | native/src/DrizzleKernel.cpp:47-77 | the inverse takes the image of every point of a regular map's domain back to it |
| HomographyMaps.AffineInverse | native/src/DrizzleKernel.cpp:53-77 | the inverse of an affine map is affine |
| HomographyMaps.MappedTurn | native/src/DrizzleKernel.cpp:47-51 | a map multiplies the turn of three points by its determinant over their three denominators |
| HomographyMaps.QuadIsStrict | native/src/DrizzleKernel.cpp:579-581 | a drop on one side of the horizon of a regular map is strictly convex and turns as the map does |
| HomographyMaps.MappedDropConserved | native/src/DrizzleKernel.cpp:577-597 | whatever the regular projective map, the box loops deposit exactly the area of the mapped drop |
| HomographyMaps.AffineDropArea | native/src/DrizzleKernel.cpp:579-581 | under an affine map every drop has the area pixfrac squared times the Jacobian |
| DrizzleSource.Request.SampleOf | native/src/DrizzleKernel.cpp:519-554 | a pixel counts only with a positive weight |
| DrizzleSource.Request.DropInk | native/src/DrizzleKernel.cpp:556-569 | no source pixel takes weight away from an output pixel; how much it adds, and how much value, is DrizzleMean.PixelConserved |
| DrizzleReach.FarIsNothing | native/src/DrizzleKernel.cpp:571-642 | a drop of any kernel, under any map, leaves nothing beyond the reach of its own corners and half a pixel |
| DrizzleReach.CentreCull | native/src/DrizzleKernel.cpp:534-535 | a centre outside the widened chunk leaves nothing on the chunk when the margin covers that drop's reach |
| DrizzleReach.CornersBound | native/src/DrizzleKernel.cpp:467-474 | on one side of the horizon the mapped-back corners enclose the input row of every point of the widened chunk, for projective maps too |
| DrizzleReach.RowKept | native/src/DrizzleKernel.cpp:475-484 | so no source row with a centre inside the widened chunk is left out |
| DrizzleReach.MeetingPoint | native/src/DrizzleKernel.cpp:504-507 | where the straight line between a row's mapped ends meets the mapped row of a column: inside the row, and off by the bend over the denominator |
| DrizzleReach.RunHasIff | native/src/DrizzleKernel.cpp:504-517 | a column that maps into the chunk is in the run of a tilted row exactly when what the line is off by, less the two columns of slack, is worth fewer mapped rows than the distance to the edge that decides |
| DrizzleReach.RunKept | native/src/DrizzleKernel.cpp:507-514 | the run of a straight row, with its column of slack, holds every column that maps into the chunk |
| DrizzleReach.LevelCull | native/src/DrizzleKernel.cpp:516-517 | a level row skipped for its first pixel leaves nothing on the chunk when the margin has room for its rise |
| DrizzleReach.RunCull | native/src/DrizzleKernel.cpp:504-517 | a column the run of a tilted row leaves out leaves nothing on the chunk when the margin has room for its drop and for what the line is off by |
| DrizzleReach.SkippedIsUnreached | native/src/DrizzleKernel.cpp:460-535 | when the margin has room for every drop and for what the tests of its row are off by, and the band is clear of the horizon, whatever the loops skip leaves nothing on the chunk |
| DrizzleRows.InkReaches | native/src/DrizzleKernel.cpp:577-597 | a square drop that leaves something on a pixel reaches strictly over the pixel's borders on all four sides |
| DrizzleRows.MovedRun | native/src/DrizzleKernel.cpp:504-507 | a shift of the output changes neither what the line of a row is off by nor the edge that decides |
| DrizzleRows.RunIffStraight | native/src/DrizzleKernel.cpp:497-517 | in every chunk, over all shifts of the output, the run of a tilted row holds every column with a centre inside the widened chunk if and only if x (L - x) m6 stays below twice the denominator along the row |
| DrizzleRows.RowKeepsIffFits | native/src/DrizzleKernel.cpp:491-535 | in every chunk, over all shifts of the output, the run and the centre test of a row lose no square drop if and only if the margin has room for every drop of the row and for what its run is off by; level rows included |
| DrizzleRows.BentRow | native/src/DrizzleKernel.cpp:504-517 | a projective row of nine pixels and, for every chunk, the shift at which its run leaves out a pixel that passes the centre test and leaves some area on the chunk |
| DrizzleAffine.ReachIs | native/src/DrizzleKernel.cpp:577-581 | under an affine map no drop reaches farther than half the sums of the coefficients' magnitudes |
| DrizzleAffine.CentreTestIsSafe | native/src/DrizzleKernel.cpp:534-535 | and a margin that covers this makes the centre test safe |
| DrizzleAffine.FittingIsGentle | native/src/DrizzleKernel.cpp:439-445 | an affine map whose drop and rise fit the margin is gentle, whatever the frame and the band |
| DrizzleTotals.JacobianIsDet | native/src/DrizzleKernel.cpp:433-438 | the one-pixel steps give the absolute determinant of an affine map |
| DrizzleTotals.SimilarityFits | native/src/DrizzleKernel.cpp:439-445 | for every rotation, reflection, uniform scale and shift the margin covers the drop of every kernel |
| DrizzleTotals.StretchedDropIsLost | native/src/DrizzleKernel.cpp:443-445 | for a stretch by 100 in one direction it does not: a drop is not visited for a chunk it covers |
| DrizzleTotals.SquareConserved | native/src/DrizzleKernel.cpp:577-597 | every square drop leaves exactly its area on the pixels its loops visit, pixfrac squared times the Jacobian under an affine map |
| DrizzleTotals.GaussianConserved | native/src/DrizzleKernel.cpp:612-641 | the Gaussian drop is normalised to pixfrac squared times the Jacobian at the frame's centre |
| CornerArea.TriangleInside | native/src/DrizzleKernel.cpp:213-232 | a convex polygon that contains a triangle has at least the triangle's area |
| CornerArea.OverlapRotates | native/src/DrizzleKernel.cpp:236-266 | the overlap does not depend on which corner of the drop comes first |
| CornerArea.QuadCornerOverlap | native/src/DrizzleKernel.cpp:236-266 | a strictly convex drop with any of its corners strictly inside a pixel has a positive overlap with it |
| CornerArea.CornerOverlap | native/src/DrizzleKernel.cpp:236-266 | a convex polygon with a corner strictly inside a pixel, where it turns, has a positive overlap with it |
| DrizzleBand.Accumulate | native/src/DrizzleKernel.cpp:556-569 | one deposit adds the sample's ink to the addressed cell of the chunk and changes nothing else; areas that are not positive change nothing |
| DrizzleBand.BellSum | native/src/DrizzleKernel.cpp:622-629 | the double loop adds up the bell over the visited pixels |
| DrizzleBand.Spread | native/src/DrizzleKernel.cpp:592-638 | a drop's loops give every cell of the chunk the drop's area on it, the unvisited ones included |
| DrizzleBand.DropSample | native/src/DrizzleKernel.cpp:571-642 | and so does every kernel's branch |
| DrizzleBand.VisitPixel | native/src/DrizzleKernel.cpp:519-643 | every cell of the chunk gets what a pixel of the run leaves on it, nothing if the pixel fails its tests |
| DrizzleBand.ColumnRun | native/src/DrizzleKernel.cpp:497-517 | the run of columns stays inside the row, and on a straight tilted row no other centre lies inside the widened chunk |
| DrizzleBand.VisitRow | native/src/DrizzleKernel.cpp:491-644 | every cell of the chunk gets the sum over the visited pixels of the row |
| DrizzleBand.VisitRows | native/src/DrizzleKernel.cpp:480-644 | and over those of all source rows, though only some rows are gone through |
| DrizzleBand.CornerRange | native/src/DrizzleKernel.cpp:460-479 | the loop over the corners finds their least and greatest input row, or no range when a division by zero leaves none |
| DrizzleBand.Chunk | native/src/DrizzleKernel.cpp:456-645 | a chunk's cells get the sum over its visited pixels, and no other cell changes |
| DrizzleBand.GentleBandIsWhole | native/src/DrizzleKernel.cpp:456-645 | under a gentle map the visited pixels of any chunk add up to the naive sum over all source pixels |
| DrizzleBand.CellIsWhole | native/src/DrizzleKernel.cpp:455-646 | so with any chunk size every cell gets the naive sum, and the split does not matter |
| DrizzleBand.BandOnReference | native/src/DrizzleKernel.cpp:424-646 | for every regular map each accumulator grows by the sum over the visited pixels of its chunk; under a gentle map by the naive sum over all |
| DrizzleCulling.UncoveredLost | native/src/DrizzleKernel.cpp:534-535 | when the margin does not cover an affine drop there is a request whose one pixel the centre test loses while the naive sum sees it |
| DrizzleCulling.UprightLost | native/src/DrizzleKernel.cpp:504-517 | and another when it covers the drop but not the rise of a level row |
| DrizzleCulling.CentreTestIffCovered | native/src/DrizzleKernel.cpp:534-535 | over all shifts, frames, bands and chunks of an affine map the centre test skips only pixels that leave nothing if and only if the margin covers the drop in both directions |
| DrizzleCulling.NeverLosesIffFits | native/src/DrizzleKernel.cpp:456-645 | and the loops as a whole lose nothing if and only if it covers the drop and the rise of a level row |
| DrizzleMean.CellMean | native/src/DrizzleKernel.cpp:556-569 | if every counted pixel's normalized value lies in [low, high], an accumulator whose sum lies between low and high times its weight, an empty one included, still does after the band, so a constant frame gives the constant under any weights |
| DrizzleMean.PixelConserved | native/src/DrizzleKernel.cpp:556-597 | the weights and the weighted values that one counted pixel leaves on a covering square band add up to its weight times its mapped drop's area, and that times its value |
| DrizzleMean.BandConserved | native/src/DrizzleKernel.cpp:424-646 | so do those of all counted pixels: nothing is created, lost or counted without its weight |
| DrizzleSamples.SampleParts | native/src/DrizzleKernel.cpp:519-554 | what a counted pixel carries is read at its mapped centre over the scale |
| DrizzleSamples.CountedColour | native/src/DrizzleKernel.cpp:524-529 | a counted pixel has the selected channel at its row and column parity of the Bayer matrix |
| DrizzleSamples.ChannelsPartition | native/src/DrizzleKernel.cpp:524-529 | every pixel that counts without a channel counts for exactly the channel of its place |
| DrizzleSamples.CountedIsAccepted | native/src/DrizzleKernel.cpp:539-546 | a counted pixel has an accepted mask pixel within half a pixel of its reference point in both axes |
| DrizzleSamples.RejectedIsNotCounted | native/src/DrizzleKernel.cpp:539-546 | and one whose nearest mask pixel is rejected, or outside the mask, is not counted |
| DrizzleSamples.NormalizedValue | native/src/DrizzleKernel.cpp:551-552 | with an offset grid that samples a bilinear function, the carried value is gain times the sample plus that function at the reference point plus the shift |
| DrizzleSamples.PlainValue | native/src/DrizzleKernel.cpp:551-552 | without one it is gain times the sample plus the shift |
| DrizzleSamples.SampleWeight | native/src/DrizzleKernel.cpp:538-550 | with a weight grid that samples a bilinear function, the carried weight is the frame's times that function at the reference point |
| DrizzleSamples.PointLands | native/src/DrizzleKernel.cpp:573-576 | a point drop leaves an area of one on a pixel whose centre is within half a pixel of it, and nothing elsewhere |
| DrizzleSamples.DropSizes | native/src/DrizzleKernel.cpp:444-455 | the drop radius and the Gaussian width are shares of a true root of the Jacobian |
| DrizzleSamples.GaussianShape | native/src/DrizzleKernel.cpp:612-641 | two pixels within reach of a Gaussian drop share it in the proportion of the exponentials of their squared distances |
| DrizzleSamples.CircularArea | native/src/DrizzleKernel.cpp:598-611 | a circular drop leaves its disc's area on the pixels less than its radius and half a pixel away along each axis, and nothing elsewhere |
| ByteLines.JoinSplit | scripts/build_sep_wheel.py:319-324 | the lines joined are the bytes again, and only the last may lack its newline |
| ByteLines.SplitJoin | scripts/build_sep_wheel.py:319-324 | lines of a file are found again in the joined bytes |
| PatchApply.ApplyFilePatch | scripts/build_sep_wheel.py:327-357 | the loop over the hunks computes the patched bytes, or the first hunk's objection in the code's order of checks |
| PatchApply.LineCount | scripts/build_sep_wheel.py:327-357 | the line count changes by the sum of new minus old counts |
| PatchApply.OutsideSurvives | scripts/build_sep_wheel.py:353-356 | every line outside the hunks survives at its position shifted by the hunks before it |
| PatchApply.OutsideKeepsOrder | scripts/build_sep_wheel.py:353-356 | and two surviving lines keep their order |
| PatchApply.Undo | scripts/build_sep_wheel.py:327-357 | the inverse hunks applied to the patched lines give the original lines back, hunk by hunk |
| PatchApply.InverseIsSwap | scripts/build_sep_wheel.py:204-210 | where the headers' new starts are consistent the inverse is the plain swap of the two sides |
| PatchApply.Cuts | scripts/build_sep_wheel.py:319-324 | joined lines are cut at the same places if and only if none is empty and only the last lacks its newline |
| PatchApply.InverseRestores | scripts/build_sep_wheel.py:327-357 | if only the last patched line may lack a newline, the inverse patch restores the original bytes |
| PatchApply.InverseRestoresOnlyIf | scripts/build_sep_wheel.py:327-357 | an inverse patch that restores the bytes needs that |
| PatchApply.InverseRestoresIff | scripts/build_sep_wheel.py:327-357 | so for every applied patch whose lines hold a newline at most at their end the inverse restores the bytes if and only if no line before the last lacks its newline and none is empty |
| PatchUndo.KeepsIff | scripts/build_sep_wheel.py:327-357 | that is so if and only if, seen from the file and the hunks alone, every new line ends in a newline unless it ends the file, and nothing is appended behind a last line that lacks its newline and stays |
| PatchUndo.InverseRestoresIffKept | scripts/build_sep_wheel.py:327-357 | so the inverse restores the bytes if and only if this holds, which can be checked before anything is applied |
| PatchParse.Decimal | scripts/build_sep_wheel.py:219 | a printed number is digits with that value |
| PatchParse.HeaderPrinted | scripts/build_sep_wheel.py:293-302 | a printed hunk header is read back with all four numbers |
| PatchParse.ParsePatch | scripts/build_sep_wheel.py:229-316 | the loop over the lines gives the parser's result, which PatchGrammar.ParsedIffWritten tells for every text |
| PatchPrint.PrintedLines | scripts/build_sep_wheel.py:238-240 | the lines of a printed diff are the printed lines |
| PatchPrint.RunLines | scripts/build_sep_wheel.py:247-277 | printed content lines are read back as content whatever they look like, markers included |
| PatchPrint.RunHunk | scripts/build_sep_wheel.py:293-306 | a printed hunk is read back whole |
| PatchPrint.RunFile | scripts/build_sep_wheel.py:278-292 | a printed file patch is read back with its path and hunks |
| PatchPrint.RoundTrip | scripts/build_sep_wheel.py:229-316 | parsing the printed diff of any good list of file patches gives the same list |
| PatchSound.ParsedIsGood | scripts/build_sep_wheel.py:229-316 | whatever the text, an accepted patch is good: safe relative paths, hunks in every file, lines that match the header counts |
| PatchSound.ParsedIffGood | scripts/build_sep_wheel.py:229-316 | the parser's results are exactly the non-empty lists of good file patches |
| PatchSound.ParsedNeverMiscounts | scripts/build_sep_wheel.py:342-343 | so a parsed patch never fails to apply for its header counts |
| PatchSound.ParsedInverseIff | scripts/build_sep_wheel.py:229-357 | for every parsed patch that applies, with no further condition, the inverse restores the file if and only if its hunks keep the file's lines so |
| PatchSound.OpenLineIsNotUndone | scripts/build_sep_wheel.py:256-275 | a parsed patch and a file of two lines for which they do not: the patch applies and its inverse does not restore the file |
| PatchTree.SourceTree.ApplyPatch | scripts/build_sep_wheel.py:360-375 | an error leaves every file as it was; otherwise exactly the computed contents are written |
| PatchTree.FilesAfter | scripts/build_sep_wheel.py:365-374 | a file the patch does not name, in any spelling, keeps its bytes; a named one becomes what its last file patch makes of the bytes before |
| PatchTree.SameFiles | scripts/build_sep_wheel.py:365-374 | patching neither creates nor removes files |
| PatchTree.SameTarget | scripts/build_sep_wheel.py:366 | a doubled slash and a leading dot step name the same file |
| PatchTree.TargetsStayBelow | scripts/build_sep_wheel.py:285-287 | no file of a parsed patch is reached through a parent step |
| PatchPlaces.AppliesIff | scripts/build_sep_wheel.py:327-357 | a patch applies if and only if every hunk's counts are its lines', its old lines are the file's lines from number oldStart on, an empty range stands behind line oldStart, and each hunk stands behind the one before it |
| PatchPlaces.HunkStands | scripts/build_sep_wheel.py:353-356 | the new lines of every hunk stand in the result where the hunk stood, moved by the hunks before it |
| PatchPlaces.RefusalIff | scripts/build_sep_wheel.py:342-352 | wrong counts, an overlap and a hunk past the end are reported exactly for what they name, in this order |
| PatchPlaces.AgainIsAlreadyApplied | scripts/build_sep_wheel.py:349-352 | a hunk met where its new lines already stand is called already applied, unless its old lines stand there as well |
| PatchPlaces.TwiceIsRefused | scripts/build_sep_wheel.py:327-357 | so a one-hunk patch that does not shorten the file is refused by its own result, unless it applies there too |
| PatchText.Spelled | scripts/build_sep_wheel.py:219-226 | the fixed parts of a patch are the letters of the format |
| PatchText.RangeRead | scripts/build_sep_wheel.py:293-302 | a range of any digits is read with its start, and its count or one if the count is left out |
| PatchText.HeaderRead | scripts/build_sep_wheel.py:219 | a hunk header of two such ranges, with anything behind the second @@, is read as they say |
| PatchText.HeaderIff | scripts/build_sep_wheel.py:219 | and no other line is a hunk header |
| PatchText.NameRead | scripts/build_sep_wheel.py:222-226 | a name with space around it, with or without its prefix, and with a note behind a tab is read as its path |
| PatchText.NameWritten | scripts/build_sep_wheel.py:222-226 | every name is written in one of these ways |
| PatchGrammar.TextOfLines | scripts/build_sep_wheel.py:238-240 | the lines of a text are found whether or not it ends in a newline |
| PatchGrammar.WrittenIsRead | scripts/build_sep_wheel.py:229-316 | a text of blocks (prose, file headers, hunks with any of their forms of line, end-of-file markers, also late ones) is parsed to what the blocks mean |
| PatchGrammar.ReadIsWritten | scripts/build_sep_wheel.py:229-316 | every accepted text is such a text |
| PatchGrammar.ParsedIffWritten | scripts/build_sep_wheel.py:229-316 | so any text is parsed to a list of patches if and only if it is written as blocks that mean the list |
| LanczosTable.DeterministicSinPi | native/src/Lanczos3Table.cpp:52-68 | the loop computes the truncated series after reduction |
| LanczosTable.SinPiZero | native/src/Lanczos3Table.cpp:52-68 | exactly zero at every integer |
| LanczosTable.SinPiShift | native/src/Lanczos3Table.cpp:54-67 | exactly antiperiodic: one further on the sign changes |
| LanczosTable.SinPiOdd | native/src/Lanczos3Table.cpp:52-68 | exactly odd |
| LanczosTable.SinPiSize | native/src/Lanczos3Table.cpp:52-68 | never more than pi times the distance from the nearest integer |
| LanczosTable.SincSize | native/src/Lanczos3Table.cpp:25 | the computed sinc times the distance from zero is at most the distance from the nearest integer, and never above one |
| LanczosTable.RawEven | native/src/Lanczos3Table.cpp:21-29 | the raw weight does not depend on the side of the sample |
| LanczosTable.RawZero | native/src/Lanczos3Table.cpp:21-29 | one at the sample and exactly zero at every other integer |
| LanczosTable.SidePositive | native/src/Lanczos3Table.cpp:21-29 | the three weights on one side of the sample add up to something positive |
| LanczosTable.TotalPositive | native/src/Lanczos3Table.cpp:38-43 | no row of the table is divided by zero: every total is positive |
| LanczosTable.RowSum | native/src/Lanczos3Table.cpp:44-45 | every row of the table adds up to exactly one |
| LanczosTable.NodeAtZero | native/src/Lanczos3Table.cpp:44-45 | at fraction zero only the sample itself has a weight |
| LanczosTable.BuildTable | native/src/Lanczos3Table.cpp:31-48 | the table holds the normalised weights of every node |
| LanczosWarp.LagrangeReproduces | native/src/Lanczos3Table.cpp:83-92 | the four basis values reproduce every cubic exactly |
| LanczosWarp.TotalIsOne | native/src/Lanczos3Table.cpp:98-104 | the interpolated taps add up to one before they are normalised |
| LanczosWarp.WeightsSumToOne | native/src/Lanczos3Table.cpp:76-107 | at every fraction the six weights add up to exactly one |
| LanczosWarp.WeightsAtZero | native/src/Lanczos3Table.cpp:76-107 | at fraction zero they select the sample |
| LanczosWarp.Lanczos3TableWeights | native/src/Lanczos3Table.cpp:76-107 | the loops compute those weights from the table |
| LanczosLaws.SineIsTaylor | native/src/Lanczos3Table.cpp:52-68 | the loop evaluates the Taylor polynomial of the sine of degree 25 |
| LanczosLaws.KernelProduct | native/src/Lanczos3Table.cpp:21-29 | the kernel times its two arguments is the product of the two sines |
| LanczosLaws.MirroredNode | native/src/Lanczos3Table.cpp:31-48 | the table read backwards holds the taps backwards |
| LanczosLaws.MirroredWeight | native/src/Lanczos3Table.cpp:76-107 | the weights of a mirrored fraction are the weights in reverse, between the nodes too |
| LanczosLaws.WeightAtNode | native/src/Lanczos3Table.cpp:76-107 | at a fraction of the table the weight of a tap, times the total of the six, is the kernel at the tap's own distance |
| WarpPixels.HeldTapHasNoWeight | native/src/PortableKernels.cpp:100-108 | the sixth tap is held at the edge only where its weight is zero |
| WarpPixels.IntegerPosition | native/src/PortableKernels.cpp:71-133 | at an integer position inside the domain the result is exactly the source sample, whatever its neighbours hold |
| WarpPixels.WarpedInRange | native/src/PortableKernels.cpp:128-132 | a finite result never leaves the source's range widened to [0, domainScale] |
| WarpPixels.FlatImage | native/src/PortableKernels.cpp:71-133 | a constant image stays constant at every position of the domain |
| WarpPixels.WarpPixelContext.constructor | native/src/PortableKernels.cpp:64-69 | a new context is ready for any position: its weights belong to no fraction yet |
| WarpPixels.WarpPixelContext.Evaluate | native/src/PortableKernels.cpp:71-133 | the weights kept from earlier calls never show: the sample is the one of the position alone, which WarpLaws tells by axis, mirror and sum |
| WarpPixels.WarpPixelContext.Window | native/src/PortableKernels.cpp:93-127 | the 36 taps in row-major order |
| WarpPixels.WarpPixelContext.AddRow | native/src/PortableKernels.cpp:99-126 | six taps; a weight of exactly zero uses nothing, a non-finite sample with a weight spoils the result |
| WarpPixels.AffineShortcut | native/src/PortableKernels.cpp:587-601 | leaving out the division for affine maps changes nothing |
| WarpPixels.WarpRow | native/src/PortableKernels.cpp:544-681 | every pixel of a row is the warped sample at its mapped position, whatever the context evaluated before |
| WarpPixels.WholePixelShift | native/src/PortableKernels.cpp:511-683 | a shift by whole pixels copies samples, non-finite ones included |
| WarpLaws.AnyOrder | native/src/PortableKernels.cpp:93-127 | the taps may be added in any order: sum, range and finiteness are the same |
| WarpLaws.EqualRows | native/src/PortableKernels.cpp:71-133 | where all rows of the source are equal the sample does not depend on the row position |
| WarpLaws.EqualColumns | native/src/PortableKernels.cpp:71-133 | where all columns are equal it does not depend on the column position |
| WarpLaws.MirroredColumns | native/src/PortableKernels.cpp:71-133 | reversing the columns and taking the mirrored column position gives the same sample, at every position, non-finite ones included |
| WarpLaws.MirroredRows | native/src/PortableKernels.cpp:71-133 | and so for the rows |
| WarpLaws.SampleIsSum | native/src/PortableKernels.cpp:116-132 | on finite samples the result is the doubly weighted sum; only a sum outside [0, domainScale] is drawn towards it, never past it |
| WarpLaws.FiniteIff | native/src/PortableKernels.cpp:110-128 | there is a sample if and only if the position is in the domain and every neighbour of two weights other than zero is finite |
| SplineGrid.ReflectedInside | native/src/FusedIntegration.cpp:24-31 | the four indices around any cell stay inside a grid of two nodes or more |
| SplineGrid.NodeWeights | native/src/FusedIntegration.cpp:33-41 | the four node weights are the cubic B-spline polynomials of the distance |
| SplineGrid.WeightsArePartition | native/src/FusedIntegration.cpp:33-41 | they are never negative and add up to one |
| SplineGrid.BicubicBSplineSample | native/src/FusedIntegration.cpp:262-281 | the loops compute the spline, with every index inside the grid |
| SplineGrid.SampleInRange | native/src/FusedIntegration.cpp:262-281 | a sample lies between any bounds of the nodes |
| SplineGrid.ConstantGrid | native/src/FusedIntegration.cpp:262-281 | a constant grid is its constant everywhere |
| FusedPixels.Inside | native/src/FusedIntegration.cpp:310-313 | the scaled coordinates of every pixel lie inside the grid, so the spline's argument check never fails |
| FusedPixels.IdentityShortcut | native/src/FusedIntegration.cpp:295-309 | a frame flagged as identity has the same normalised samples by the full evaluation |
| FusedPixels.Request.TallyOf | native/src/FusedIntegration.cpp:325-361 | accepted and rejected frames add up to all, and there is weight if and only if a frame is accepted |
| FusedPixels.IntegratedInRange | native/src/FusedIntegration.cpp:362-365 | without output scaling the result lies between the accepted normalised samples |
| FusedPixels.TallyPixel | native/src/FusedIntegration.cpp:325-361 | the loop with the identity flags computes the sums of the full evaluation |
| FusedPixels.RunFusedIntegration | native/src/FusedIntegration.cpp:284-370 | every pixel's result and counts are those of the full evaluation, and the counts add up to the number of frames |
| LinearFit.InsertedSorted | native/src/FusedIntegration.cpp:521-530 | an insertion keeps the pairs ascending |
| LinearFit.CollectedMembers | native/src/FusedIntegration.cpp:502-531 | the collected pairs are exactly the usable samples, each with its frame |
| LinearFit.CollectedSorted | native/src/FusedIntegration.cpp:502-531 | in ascending order |
| LinearFit.CollectedDistinct | native/src/FusedIntegration.cpp:502-531 | with every frame at most once |
| LinearFit.BracketHalves | native/src/FusedIntegration.cpp:72-87 | every bisection halves the bracket and stays inside it |
| LinearFit.FittedLine | native/src/FusedIntegration.cpp:67-97 | the slope is between zero and the first upper end, and the mean deviation is not negative |
| LinearFit.MiddleIsBest | native/src/FusedIntegration.cpp:92 | the middle of a sorted sample minimises the sum of absolute deviations |
| LinearFit.InterceptIsBest | native/src/FusedIntegration.cpp:90-96 | so for its slope no other intercept has a smaller sum of absolute deviations |
| LinearFit.KeptIsSubsequence | native/src/FusedIntegration.cpp:541-552 | a round keeps some of the pairs, in order |
| LinearFit.RoundsAreSubsequence | native/src/FusedIntegration.cpp:532-556 | and so do all rounds, however they stop |
| LinearFit.SurvivorsAreIntact | native/src/FusedIntegration.cpp:499-556 | after all rounds the values are ascending, no frame occurs twice, and each value is still the one its frame brought |
| LinearFitPixels.InsertSorted | native/src/FusedIntegration.cpp:521-530 | the two arrays are shifted together |
| LinearFitPixels.FitSortedLadLine | native/src/FusedIntegration.cpp:62-98 | the loops compute the bisected slope, the median intercept and the mean deviation |
| LinearFitPixels.Compact | native/src/FusedIntegration.cpp:541-552 | the gaps are closed in both arrays alike |
| LinearFitPixels.Reject | native/src/FusedIntegration.cpp:532-556 | the arrays hold the survivors of the rounds, which stop for few samples, a scale that is zero or vanishes beside 1, or a round that rejects nothing |
| LinearFitPixels.PixelInRange | native/src/FusedIntegration.cpp:557-567 | without output scaling the result lies between the smallest and the largest surviving value |
| LinearFitPixels.LinearFitPixel | native/src/FusedIntegration.cpp:499-570 | the result and counts of one pixel, with accepted plus rejected equal to the number of frames |
| LinearFitPixels.CandidatesUsable | native/src/FusedIntegration.cpp:515-520 | only frames of positive weight are candidates, so the weighted mean of any survivors is defined |
| LinearFitPixels.RunLinearFitIntegration | native/src/FusedIntegration.cpp:479-573 | every pixel of the tile gets its own result, and its counts add up to the number of frames |
| SplineLaws.LinearGrid | native/src/FusedIntegration.cpp:262-281 | a grid that is linear in column and row is reproduced, two nodes inside its borders |
| SplineLaws.BordersAreMirrored | native/src/FusedIntegration.cpp:24-31 | at every border a grid is sampled as if its two outer nodes stood there again, mirrored |
| FusedLaws.GridPosition | native/src/FusedIntegration.cpp:310-313 | a pixel's grid position divides the grid as its column and row divide the image |
| FusedLaws.ConstantNormalization | native/src/FusedIntegration.cpp:352 | the scale grid multiplies a sample and the offset grid is added |
| FusedLaws.IntegratedIsMean | native/src/FusedIntegration.cpp:325-365 | with any counting frame the weighted distances of the counting samples from the mean that the result stands for, the output scale and offset undone, add up to zero; with none the result is zero |
| FusedLaws.IntegratedBounds | native/src/FusedIntegration.cpp:362-365 | the result lies between the scaled and shifted bounds of the counting samples |
| FusedLaws.SurvivorsCancel | native/src/FusedIntegration.cpp:557-567 | after the linear-fit rejection the weighted distances of the survivors from the mean that the result stands for add up to zero |
| FusedLaws.SurvivorBounds | native/src/FusedIntegration.cpp:557-567 | and the result lies between the scaled and shifted smallest and largest survivor |
| FusedLaws.SurvivorsTookPart | native/src/FusedIntegration.cpp:499-556 | every survivor is a frame of positive weight whose sample is finite and above the low range, with that sample normalized |
| LinearFitLaws.SupportingPlane | native/src/FusedIntegration.cpp:77-84 | the deviation of any other line is at least this one's, plus the balance of signs times the step in intercept, plus the score times the step in slope |
| LinearFitLaws.BracketKeepsBest | native/src/FusedIntegration.cpp:72-87 | while every tried slope has as many values above its line as below, no line of the first bracket beats the best one of the last |
| LinearFitLaws.DistinctIsEven | native/src/FusedIntegration.cpp:77-84 | that is so wherever the residuals differ from each other |
| LinearFitLaws.StraightRecovered | native/src/FusedIntegration.cpp:67-97 | rising samples that lie on a line get its slope, up to half the width of the last bracket |
| LinearFitTies.SlopeTooSteep | native/src/FusedIntegration.cpp:72-87 | a tied sample of every odd size from five on for which the bisection leaves the best slope behind at its first step |
| LinearFitTies.TiesLoseTheBest | native/src/FusedIntegration.cpp:67-97 | so however long it goes on, its line has a deviation of p (p + 1) at least where p squared is possible, 2 p + 1 being the size |
| LinearFitLaws.MeanDeviation | native/src/FusedIntegration.cpp:94-96 | the mean deviation times the number of values is the sum of absolute deviations |
| LinearFitLaws.ScaleSquared | native/src/FusedIntegration.cpp:537-538 | under a true root the unit of the tolerances, squared, is four times the squared mean deviation times one plus the squared slope |
| LinearFitLaws.CloseIff | native/src/FusedIntegration.cpp:544-548 | a sample stays if and only if it is at most the low tolerance below the line and the high tolerance above it |
| LinearFitLaws.KeptIff | native/src/FusedIntegration.cpp:541-552 | a round keeps exactly the samples that are close at their own positions |
| LinearFitLaws.FewAreKept | native/src/FusedIntegration.cpp:532-533 | fewer than five samples are never rejected |
| LinearFitLaws.RoundsSettle | native/src/FusedIntegration.cpp:532-556 | given rounds enough the survivors are few, or on their line, or all close to it |
| PeImage.Field | scripts/pe_imports.py:271-286 | a field is read if and only if it lies inside the file |
| PeImage.SectionAt | scripts/pe_imports.py:347-356 | an accepted section has no raw data or raw data inside the file |
| PeImage.Sections | scripts/pe_imports.py:345-356 | so have all sections of an accepted table; PeTables.SectionsIff tells which bytes they are |
| PeImage.ParseImage | scripts/pe_imports.py:298-356 | on every byte string: an error, or an image whose section data lies inside the file |
| PeImage.Image.Covering | scripts/pe_imports.py:371-373 | the first section that covers an address is the one used |
| PeImage.Image.FileOffset | scripts/pe_imports.py:366-381 | a returned offset and its length lie inside the file |
| PeImage.FindNul | scripts/pe_imports.py:385 | the first NUL of the range, or none |
| PeImage.Image.CString | scripts/pe_imports.py:383-400 | a returned name is a valid DLL name of at most 260 bytes |
| PeImage.NamesAreGood | scripts/pe_imports.py:403-450 | every name read from either table is valid |
| PeImage.ParsedNamesAreGood | scripts/pe_imports.py:453-470 | and so is every reported name |
| PeImage.ReadNames | scripts/pe_imports.py:403-450 | the descriptor loops of both tables read the names up to the terminator, or stop at the first error |
| PeRoundTrip.ReadsHeaders | scripts/pe_imports.py:298-356 | the headers of a written PE32 or PE32+ image are read back field by field |
| PeRoundTrip.ReadsName | scripts/pe_imports.py:383-400 | every name written to either table is read back at its address |
| PeRoundTrip.ReadsDescriptor | scripts/pe_imports.py:412-446 | every written descriptor, imported or delay-loaded by either kind of address, leads to its name, and the zero descriptor ends the table |
| PeRoundTrip.ReadsNames | scripts/pe_imports.py:403-450 | either table is read back from any descriptor on |
| PeRoundTrip.RoundTrip | scripts/pe_imports.py:453-470 | from a PE32 or PE32+ image written from two lists of names the parser returns exactly these as the imported and the delay-loaded ones |
| PeTables.SectionsIff | scripts/pe_imports.py:345-356 | entry i of an accepted table of any length is exactly the four fields 40 i bytes behind its start, with raw data inside the file |
| PeTables.DirectoriesIff | scripts/pe_imports.py:337-344 | and directory i the two fields 8 i bytes behind its start |
| PeTables.OffsetIff | scripts/pe_imports.py:366-381 | an address is read from the raw data of the first section that holds it, if all of it is there, or from the headers if no section does, and else not at all |
| PeTables.StringIff | scripts/pe_imports.py:383-400 | a name is read at an address if and only if it lies there with a NUL behind it and has 1 to 260 printable ASCII characters, none of them reserved |
| PeTables.TableIff | scripts/pe_imports.py:403-450 | a table is read as a list of names if and only if its entries, in whatever sections, lead to these names, in whatever sections, and the entry behind them is zero |
| PeTables.ImageIff | scripts/pe_imports.py:298-356 | a byte string is read as an image if and only if its headers, directories and any number of sections stand at the offsets of the format |
| PeTables.ReportIff | scripts/pe_imports.py:453-470 | so the report of a byte string is fixed by its bytes alone: both lists of names, whichever sections hold the tables and the names |
| CallTimer.StepConserves | benchmarks/trace_run.py:186-228 | every entry and every return keeps, for every thread: recorded exclusive times equal finished outermost calls plus finished children of open calls |
| CallTimer.RunConserves | benchmarks/trace_run.py:186-228 | so it holds after every run, however the threads interleave and whatever raises |
| CallTimer.FinishedThread | benchmarks/trace_run.py:212-226 | once a thread has returned from everything, its exclusive times add up to its outermost calls |
| CallTimer.StepTimely | benchmarks/trace_run.py:187-226 | with a clock that does not run backwards, finished children fit between a call's start and the start of its open child |
| CallTimer.RunTimely | benchmarks/trace_run.py:212-226 | so no recorded exclusive time is negative or above its duration |
| CallTimer.Tracer.Start | benchmarks/trace_run.py:187-191 | the fields after an entry are the step's |
| CallTimer.Tracer.Finish | benchmarks/trace_run.py:211-228 | and after a return: one frame popped, the parent credited, one event appended |

## Left out

- Rounding: Float32 and Float64 arithmetic is exact here, so bit-level equality of routes, overflow to infinity and signed zeros are not modelled.
- NaN and infinity are one value, `NonFinite`; the kernels modelled only ask whether a sample is finite.
- NEON routes of the warp, and 64-pixel transposed blocks of the rejection kernel: other orders of the same scalar work.
- Flat index arithmetic: images, levels and accumulators are rows, two- or three-dimensional arrays; the drizzle's three output spans are one array of cells.
- Argument checks: `Validate` functions and the spline's own check appear as preconditions, without their messages.
- Threads: only `ParallelRange` itself is interleaved; relaxed memory order is a single total order of the atomic steps, and a failure to create a thread is not modelled.
- OrderStatistics.NthElement: the library's selection algorithm is not modelled, only what it promises; the body sorts.
- RadonPeaks.Divisor: a sample minimum of zero with an empty sample gives the divisor 1 here, where the kernel takes the median of an empty vector.
- DrizzleBand.BandOnReference: the frame, with one pixel around it, lies on one side of the map's horizon, as the source's own comment on the column run takes for granted; a frame across the horizon is not modelled.
- DrizzleReach.SkippedIsUnreached: for projective maps the condition is sufficient, not exact as a whole; exact are the tests on the columns of a row (`DrizzleRows.RowKeepsIffFits`) and, for affine maps, all of it (`DrizzleCulling.NeverLosesIffFits`).
- DrizzleTotals.GaussianConserved: the total is over the pixels the drop's loops visit, which are clipped to the image columns, and needs a positive sum of the bell.
- Circular drops: the disc area is a parameter, so their total area is not proved, only their culling and accumulation; `DiscCornerArea` is transcendental analysis.
- HomographyMaps.MappedDropConserved: a drop across the horizon of a projective map is not a convex quadrilateral and is not covered.
- `BandOnLattice` and `LatticeMap`: their culling is safe only under smoothness assumptions about the lattice.
- LanczosTable.SinPiSize: bounds, symmetries and the Taylor polynomial (`LanczosLaws.SineIsTaylor`) only; how closely it follows the sine is not stated.
- The lattice branch of the warp's input coordinates, and the map of a projective horizon point (not a position here).
- LinearFitLaws.BracketKeepsBest: that the last bracket holds a best slope is proved where no tried slope has more values above its line than below, and refuted for tied samples (`LinearFitTies.TiesLoseTheBest`); which ties are harmless is not told exactly.
- Rejection masks of the fused integration are booleans, the masked bits already selected.
- Robust integration, `MaskedWeightedMean` and `TileOffsets`: sums and quantiles that would only add easy members.
- PatchParse.ParsePatch: paths stay bytes, without UTF-8 decoding, and errors carry a kind instead of a text; an empty path, which the parser accepts, names the root directory and so no file.
- PatchTree.SourceTree.ApplyPatch: symbolic links, directories and the SHA-256 digests of the result are not part of this model, nor is a write that fails half way.
- PeImage.ParsedNamesAreGood: the sorted tuples of distinct names are sets; machine and subsystem names and `isDll` are left out.
- PeRoundTrip.RoundTrip: the images it writes have one section and the same preferred address; for images of any sections `PeTables.ReportIff` is the condition on the bytes.
- CallTimer.RunConserves: per-call profiling and the event's category, process and label fields beyond name and thread are left out; a thread's finished outermost time is a counter of the model.
- The Metal backend, the C interface, debayering, image tiles, the release and staging scripts, the desktop application and the statistics of the other benchmarks.
