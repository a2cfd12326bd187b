# FuncAnalysis adaptive sampler, modelled in Dafny

`FuncAnalysis.get_points` builds a sample of points on `[x_start, x_stop]` for a user function.
It starts from the two ends and their midpoint. Each pass scores every interior point by how much
the curve turns there: the absolute difference of the inverse tangents of the secant slopes on
its two sides (`_need_split`). A point is flagged when its score reaches `epsilon` times the
largest score. The pass then rebuilds the point list: a flagged point brings the midpoints of
both its segments, and a run of consecutive flagged points shares the midpoints between them
(`prev_splitted`). Passes repeat until there are at least `num_points` points.

The model has three modules:

- `Sequences` (`sequences.dfy`): midpoints, strict order, counting flags.
- `Subdivision` (`subdivision.dfy`): a reference description of one pass by segment. Every
  marked segment gets its midpoint inserted.
- `FuncAnalysis` (`func_analysis.dfy`): the sampler itself.
  - Scoring: `Scores`, `NeedSplit`.
  - The reconstruction pass: the function `Reconstruct` and the loop `ReconstructPass`, which
    keeps the `prev_splitted` flag.
  - The refinement: the function `Refined` and the loop `RefineLoop`.
  - `GetPoints`: validation, seed and loop.

Coordinates are exact reals. The user function `f` and the inverse tangent `atan` are
parameters (total functions on reals). The errors of `get_points` are `Err` values of a
`Result`.

The main results:

- `ReconstructPass` computes `Reconstruct`, and `Reconstruct` equals the reference subdivision
  in which a segment is split exactly when one of its interior ends is flagged
  (`ReconstructBySegments`). So a pass keeps every old point in order, inserts each needed
  midpoint once and no duplicates, and keeps the list strictly increasing.
- A pass grows the list by the number of flagged points plus the number of runs of flagged
  points (`ReconstructLength`).
- With `epsilon <= 1` the top score is always flagged, so every pass adds at least two points
  and the loop ends.
- A successful `GetPoints` returns at least `num_points` strictly increasing points. The first
  is `x_start`, the last is `x_stop`, and all lie in the interval.

A note on straight lines: in exact arithmetic a straight line gives all-zero scores. Since
`0 >= 0 * epsilon`, every interior point is then flagged (`LinearAllFlagged`), so a straight
line does not stall the loop. A pass flags nothing only when the top score is positive and
`epsilon > 1` (`StalledPass`). That is the one way the source loop can spin forever on exact
values.

## Model

| member | source | states |
|---|---|---|
| FuncAnalysis.GetPoints | FuncAnalysis.py:44-68 | an empty or reversed interval gives InvalidInterval; fewer than three points asked gives InvalidCount; otherwise the result is the refinement of the seed, with at least num_points strictly increasing points, first x_start, last x_stop, all within the interval; asking for three returns the seed |
| FuncAnalysis.Seed | FuncAnalysis.py:49 | the seed is [x_start, midpoint, x_stop], strictly increasing when x_start < x_stop |
| Sequences.Mid | FuncAnalysis.py:49 | the midpoint of two distinct points lies strictly between them, equally far from both |
| FuncAnalysis.SampleShape | FuncAnalysis.py:49-68 | the refined seed has at least num_points points, is strictly increasing, starts at x_start and ends at x_stop |
| FuncAnalysis.SampleWithinInterval | FuncAnalysis.py:49-68 | every point of the refined seed lies in [x_start, x_stop] |
| FuncAnalysis.SampleOfThree | FuncAnalysis.py:49-51 | with num_points = 3 the loop does not run and the seed is returned |
| FuncAnalysis.RefineLoop | FuncAnalysis.py:51-66 | the while loop returns exactly the refinement Refined of its starting points |
| FuncAnalysis.Refined | FuncAnalysis.py:51-68 | the loop's result has at least num_points points and no fewer than it started with, keeps the first and last point, and stays strictly increasing |
| FuncAnalysis.RefinedWithin | FuncAnalysis.py:51-68 | refinement never leaves the interval between the first and last starting point |
| FuncAnalysis.Refine | FuncAnalysis.py:52-66 | with epsilon at most 1 one pass adds at least two points, keeps the first and last point, and keeps strict increase |
| FuncAnalysis.StalledPass | FuncAnalysis.py:20 | with a positive top score and epsilon above 1 a pass returns its input unchanged, so the loop would not progress |
| FuncAnalysis.SlopesUpTo | FuncAnalysis.py:17 | there is one secant slope per segment considered |
| FuncAnalysis.SlopeAt | FuncAnalysis.py:17 | definition: the secant slope of segment i, (f(p[i+1]) - f(p[i])) / (p[i+1] - p[i]), defined only where p[i] < p[i+1]; SlopesUpToAt and LineSlope state its properties |
| FuncAnalysis.Slopes | FuncAnalysis.py:17 | there is one secant slope per segment |
| FuncAnalysis.SlopesUpToAt | FuncAnalysis.py:17 | slope i is (f(p[i+1]) - f(p[i])) / (p[i+1] - p[i]) |
| FuncAnalysis.TurnsUpTo | FuncAnalysis.py:18 | one turn per joint considered, each non-negative |
| FuncAnalysis.Turn | FuncAnalysis.py:18 | definition: abs(atan(grads[i+1]) - atan(grads[i])); TurnsUpTo and ScoreAt state its properties |
| FuncAnalysis.TurnsUpToAt | FuncAnalysis.py:18 | turn i is the absolute difference of atan at slopes i+1 and i |
| FuncAnalysis.Abs | FuncAnalysis.py:18 | the absolute value is non-negative and equals x or -x |
| FuncAnalysis.Scores | FuncAnalysis.py:17-18 | there are len(points) - 2 scores, all non-negative |
| FuncAnalysis.ScoreAt | FuncAnalysis.py:17-18 | score i is abs(atan(slope of segment i+1) - atan(slope of segment i)) |
| FuncAnalysis.LineSlope | FuncAnalysis.py:17 | on a straight line a*x + b every secant slope is a |
| FuncAnalysis.LinearAllFlagged | FuncAnalysis.py:17-20 | on a straight line every score is zero and every interior point is flagged, whatever epsilon is |
| FuncAnalysis.MaxOf | FuncAnalysis.py:20 | max(grads_diff) is one of the scores and no score exceeds it |
| FuncAnalysis.Threshold | FuncAnalysis.py:20 | definition: the cut-off max(grads_diff) * epsilon; NeedSplit, ThresholdAtMostMax and ThresholdAboveMax state its properties |
| FuncAnalysis.Reaching | FuncAnalysis.py:20 | one flag per score, set exactly when the score reaches the threshold |
| FuncAnalysis.NeedSplit | FuncAnalysis.py:16-22 | one flag per score, set exactly when the score is at least max(scores) * epsilon |
| FuncAnalysis.MaxNonNegative | FuncAnalysis.py:20 | the top of non-negative scores is non-negative |
| FuncAnalysis.ThresholdAtMostMax | FuncAnalysis.py:20 | with non-negative scores and epsilon at most 1 the threshold does not exceed the top score |
| FuncAnalysis.TopScoreFlagged | FuncAnalysis.py:20 | with non-negative scores and epsilon at most 1 every point with the top score is flagged, so some point is flagged |
| FuncAnalysis.FlatScoresAllFlagged | FuncAnalysis.py:20 | all-zero scores flag every point |
| FuncAnalysis.ThresholdAboveMax | FuncAnalysis.py:20 | with a positive top score and epsilon above 1 the threshold exceeds the top score |
| FuncAnalysis.NothingFlaggedAboveOne | FuncAnalysis.py:20 | with a positive top score and epsilon above 1 no point is flagged |
| FuncAnalysis.ReconstructPass | FuncAnalysis.py:53-66 | the for loop with prev_splitted builds exactly Reconstruct, which is the segment-wise subdivision |
| FuncAnalysis.Emitted | FuncAnalysis.py:55-64 | the first k interior points add at least k points |
| FuncAnalysis.Emit | FuncAnalysis.py:56-64 | definition: what one iteration of the for body appends for interior point i; EmitParts, EmitLength and ReconstructPass state its properties |
| FuncAnalysis.EmitParts | FuncAnalysis.py:56-63 | an interior point adds its owed left midpoint (flagged and previous not flagged), itself, and its right midpoint when flagged |
| FuncAnalysis.Reconstruct | FuncAnalysis.py:53-65 | a pass never shrinks the list and keeps the first and last point |
| FuncAnalysis.SegmentsUpTo | FuncAnalysis.py:56-60 | the mark of segment j says whether an interior end of it is flagged |
| FuncAnalysis.SegmentFlags | FuncAnalysis.py:56-60 | one mark per segment, set exactly when an interior end of the segment is flagged |
| FuncAnalysis.EmittedBySegments | FuncAnalysis.py:55-64 | after k interior points the output plus the owed midpoint is the pieces of the first k + 1 segments |
| FuncAnalysis.ReconstructBySegments | FuncAnalysis.py:53-65 | the pass equals the subdivision that inserts the midpoint of each segment with a flagged interior end, once |
| FuncAnalysis.Runs | FuncAnalysis.py:57-58 | runs of consecutive flagged points number at most the flagged points |
| FuncAnalysis.EmitLength | FuncAnalysis.py:56-63 | an interior point adds 1 point, plus 1 if flagged, plus 1 more if it starts a run of flagged points |
| FuncAnalysis.EmittedLength | FuncAnalysis.py:55-64 | the first k interior points add k + flagged + runs points |
| FuncAnalysis.ReconstructLength | FuncAnalysis.py:53-65 | the new length is the old length plus the flagged points plus the runs of flagged points |
| FuncAnalysis.SplitSegmentsCount | FuncAnalysis.py:55-64 | split segments = flagged points + runs, since a run of m flagged points splits m + 1 segments |
| FuncAnalysis.ReconstructUnflagged | FuncAnalysis.py:62-63 | a pass that flags nothing returns its input unchanged |
| FuncAnalysis.ReconstructGrows | FuncAnalysis.py:56-61 | a pass that flags something adds at least two points |
| FuncAnalysis.ReconstructIncreasing | FuncAnalysis.py:53-65 | a pass keeps a strictly increasing list strictly increasing: no duplicate midpoints |
| FuncAnalysis.ReconstructKeepsPoints | FuncAnalysis.py:53-65 | every old point survives, in order, at its index plus the number of split segments to its left |
| FuncAnalysis.ReconstructMembers | FuncAnalysis.py:53-65 | the new list holds exactly the old points and the midpoints of the split segments |
| Subdivision.Subdivide | FuncAnalysis.py:53-65 | the reference pass keeps the first and last point and adds one point per marked segment |
| Subdivision.Prefix | FuncAnalysis.py:55-64 | the first k segments contribute k points plus one per marked segment, starting with the first point |
| Subdivision.SubdivideIncreasing | FuncAnalysis.py:53-65 | inserting midpoints keeps a strictly increasing list strictly increasing |
| Subdivision.SubdivideAt | FuncAnalysis.py:53-65 | point i lands at i plus the marked segments to its left, and a marked segment's midpoint right after its left end |
| Subdivision.SubdivideLayout | FuncAnalysis.py:53-65 | all old points and all midpoints of marked segments land at those places |
| Subdivision.SubdivideMembers | FuncAnalysis.py:53-65 | the subdivision holds exactly the old points and the midpoints of marked segments |
| Subdivision.SubdivideNoMarks | FuncAnalysis.py:62-63 | with no segment marked the points come back unchanged |

## Left out

- The constructor (FuncAnalysis.py:5-13) only stores the function. The model passes `f` to every operation instead.
- IEEE floating point is not modelled: no rounding in midpoints, slopes or scores, and no NaN or infinity. Coordinates and values are exact reals.
- `numpy.arctan` is the parameter `atan`. No property of the inverse tangent is used, so the results hold for any total function in its place.
- numpy arrays and whole-array operations are sequences and recursive functions over them.
- The default arguments (`num_points=10`, `epsilon=0.9`) are not modelled as defaults. They meet the precondition of `GetPoints`.
- The exception messages are not modelled. The two `ValueError`s are `Err(InvalidInterval)` and `Err(InvalidCount)`.
- GetPoints: requires `epsilon <= 1` whenever a pass is due (`x_start < x_stop` and `num_points > 3`). Without it the loop need not end (`StalledPass`), and a Dafny method must terminate. The precondition excludes all such inputs, not only the ones that hang: the source loops forever there when some pass has a positive top score (`StalledPass`), but returns when every pass scores all zero, as on a straight line (`LinearAllFlagged`). Neither outcome is modelled for `epsilon > 1`.
- RefineLoop: requires `epsilon <= 1` whenever a pass is due, for the same reason.
- Refined: requires `epsilon <= 1` whenever a pass is due, for the same reason.
- Refine: requires `epsilon <= 1`, which is what guarantees that the pass grows the list.
