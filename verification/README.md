# Activity endpoints and the sleep day table, in Dafny

This project models two parts of scikit-digital-health:

- The activity endpoints of `src/skdh/activity/endpoints.py`.
  - `get_activity_bouts`: the minutes a block of accelerometer epochs spends in bouts at an intensity level, under bout policies 1 to 4.
  - The endpoint classes that write per-day results into a table of float columns. These are `ActivityEndpoint` (state-qualified names), `IntensityGradient`, `MaxAcceleration`, `TotalIntensityTime`, `BoutIntensityTime` and `FragmentationEndpoints`.
- The per-day loop of the sleep process in `src/skimu/sleep/sleep.py`. It fills one row of a results dictionary per analysed day.

The files:

| file | module | what it holds |
|---|---|---|
| `windowed.dfy` | `Windowed` | range sums, stride-1 moving mean, `nonzero`, run-length encoding, Python `int()` truncation |
| `bouts.dfy` | `Bouts` | the four bout policies as functions, and `ActivityBouts` (`get_activity_bouts`) |
| `bout_loops.dfy` | `BoutLoops` | the `while`/`for` loops of policies 1, 2 and 3/4, as methods proved equal to the functions |
| `tables.dfy` | `Tables` | table cells (NaN or a number), `+=`, `nanmax`, cell writes, state-qualified and numbered column names |
| `endpoints.dfy` | `Endpoints` | `TotalIntensityTime`, `BoutIntensityTime`, `MaxAcceleration` |
| `gradient.dfy` | `Gradient` | `IntensityGradient`: the 161-bin histogram and `reset_cached` |
| `fragmentation.dfy` | `Fragmentation` | `FragmentationEndpoints`: collected run lengths and `reset_cached` |
| `sleep_days.dfy` | `SleepDays` | the day loop of the sleep process and the table it builds |

Modelling choices:

- Acceleration values and thresholds are exact reals. Epoch counts are integers.
- Each endpoint's `predict` is a pure function from the results table (`map<string, seq<Value>>`) to a new table.
- The pointers the stateful endpoints keep between `predict` and `reset_cached` are modelled as the remembered day index. Together with the accumulated histogram or run lengths, this forms a `Cache` value.
- An exception is a `Result` or `Outcome` error value.
- Functions the code calls but does not define are parameters of the model. These are `linregress` on the log-scaled histogram, the five `fragmentation_endpoints` statistics, and the collaborators of the sleep loop: wear intersection, TSO detection, sleep predictions, date strings and sleep metrics.
- The stride-1 `moving_mean` utility is defined in the model. It fails exactly when the window does not fit in the data.

## Model

| member | source | states |
|---|---|---|
| Bouts.ActivityBouts | src/skdh/activity/endpoints.py:98-209 | a record shorter than W = `int(boutdur*60/wlen)` gives 0; an unknown policy raises iff the record is at least W long; policies 3/4 raise iff the record is shorter than the break window `60/wlen + 1`; any result lies between 0 and the record's duration in minutes |
| Bouts.BoutWindow | src/skdh/activity/endpoints.py:98 | W = `int(boutdur * (60 / wlen))`, truncated to a whole number of epochs (bounds in `Bouts.BoutWindowWholeEpochs`) |
| Bouts.BoutWindowWholeEpochs | src/skdh/activity/endpoints.py:98 | W is at most `boutdur * 60 / wlen` and within one of it, and exactly `boutdur * (60 / wlen)` when the epoch length divides a minute |
| Bouts.BoutWindowDividing | src/skdh/activity/endpoints.py:98 | for an epoch length dividing a minute, W is `boutdur` times the epochs per minute with nothing lost to truncation |
| Bouts.Minutes | src/skdh/activity/endpoints.py:122-124 | epochs times `wlen / 60`: the conversion used at :122-124, 149, 176 and 205 (never negative and monotone by `Bouts.MinutesMonotone`) |
| Bouts.QualMask | src/skdh/activity/endpoints.py:106 | the mask has one 0/1 entry per epoch, 1 exactly when `lower <= a < upper` |
| Bouts.ExtendEnd | src/skdh/activity/endpoints.py:114-117 | the inner `while` never moves `end` back and never past the end of the record |
| Bouts.Attempt1 | src/skdh/activity/endpoints.py:110-120 | a start opens a bout iff `start + W < len` and its first W epochs sum above `W * boutcrit`; the bout then ends between `start + W` and len and selects at most the starts left |
| Bouts.Next1 | src/skdh/activity/endpoints.py:119-129 | the scan index always advances, by `max(len(select), 1)` |
| Bouts.Credit1 | src/skdh/activity/endpoints.py:120-124 | one attempt credits the closed span `max(p[p < end]) - start + 1` or the count `len(select)`, nothing on a skip (its bounds are `Bouts.Scan1ClosedBound` and `Bouts.Scan1OpenBound`) |
| Bouts.Scan1 | src/skdh/activity/endpoints.py:109-129 | the total of the outer `while` from scan position i, credit plus the rest of the scan (bounded by `Bouts.Scan1ClosedBound`, `Bouts.Scan1OpenBound`; computed by `BoutLoops.Policy1Loop`) |
| Bouts.Policy1Epochs | src/skdh/activity/endpoints.py:105-129 | the policy-1 epochs: the scan over all qualifying epochs from position 0 (properties in `Bouts.Policy1Bounds`, `Bouts.Policy1AllQualifying`, `Bouts.Policy1NeedsMoreThanWindow`) |
| Bouts.Policy1Bounds | src/skdh/activity/endpoints.py:105-129 | closed-bout epochs lie in [0, len]; open-bout epochs lie in [0, number of qualifying epochs] and never exceed the closed ones |
| Bouts.Scan1ClosedBound | src/skdh/activity/endpoints.py:109-124 | from scan position i, the accepted closed spans are disjoint and fit in `len - p[i]` epochs |
| Bouts.Scan1OpenBound | src/skdh/activity/endpoints.py:118-124 | from scan position i, the open count credits at most the `|p| - i` qualifying epochs left |
| Bouts.Scan1OpenAtMostClosed | src/skdh/activity/endpoints.py:118-124 | for the same input the open-bout total is at most the closed-bout total |
| Bouts.StepFacts | src/skdh/activity/endpoints.py:110-129 | one outer iteration credits at most the epochs up to the next start it resumes at; the jump is at least 1 |
| Bouts.Policy1NeedsMoreThanWindow | src/skdh/activity/endpoints.py:110-112 | a record of at most W epochs has no policy-1 bout, because `end < x.size` is strict |
| Bouts.Policy1AllQualifying | src/skdh/activity/endpoints.py:105-129 | an all-qualifying record of more than W epochs (W >= 1, `boutcrit < 1`) is one bout of every epoch, closed or open |
| Bouts.ExtendAllOnes | src/skdh/activity/endpoints.py:114-117 | on an all-qualifying record the inner `while` grows the bout to the end of the record |
| Bouts.Step2 | src/skdh/activity/endpoints.py:137-147 | one policy-2 iteration keeps the working mask and the overlay at the record's length (what it changes is `Bouts.Step2Preserves`) |
| Bouts.Scan2 | src/skdh/activity/endpoints.py:135-147 | the whole policy-2 loop keeps both arrays at the record's length (its invariant is `Bouts.Scan2Preserves`) |
| Bouts.Overlay | src/skdh/activity/endpoints.py:148 | `x[xt == 2] = 1` keeps the record's length; marked epochs become 1 |
| Bouts.Policy2Epochs | src/skdh/activity/endpoints.py:130-149 | the policy-2 epochs: the sum of the overlaid mask after the scan (properties in `Bouts.Policy2Bounds`, `Bouts.Policy2AllQualifying`) |
| Bouts.Step2Preserves | src/skdh/activity/endpoints.py:136-147 | one policy-2 iteration keeps a 0/1 mask, never makes an epoch qualify that did not, and marks only inside W-windows of qualifying starts |
| Bouts.Scan2Preserves | src/skdh/activity/endpoints.py:135-147 | the whole policy-2 scan keeps that invariant |
| Bouts.Policy2Bounds | src/skdh/activity/endpoints.py:130-149 | policy 2 credits between 0 and len epochs, and only epochs that qualified or lie in a W-window of a qualifying start |
| Bouts.Policy2AllQualifying | src/skdh/activity/endpoints.py:130-149 | an all-qualifying record is credited in full by policy 2 (W >= 1, `boutcrit < 1`) |
| Bouts.Step2KeepsOnes | src/skdh/activity/endpoints.py:139-146 | on an all-qualifying mask no policy-2 step demotes or copies a value (W >= 1, `boutcrit < 1`) |
| Bouts.BreakWindow | src/skdh/activity/endpoints.py:157 | N = `int(60 / wlen) + 1`: one minute of epochs plus one, written with integer division (agreement with `int` is `Bouts.BreakWindowTruncates`) |
| Bouts.BreakWindowTruncates | src/skdh/activity/endpoints.py:157 | Python's `int(60 / wlen)`, truncating the float quotient, is the integer quotient of 60 by wlen, so N is that quotient plus one |
| Bouts.SliceStart | src/skdh/activity/endpoints.py:158 | `i1 = int(floor((N + 1) / 2)) - 1` (its value is stated by `Bouts.SliceFits`) |
| Bouts.SliceEnd | src/skdh/activity/endpoints.py:159 | `i2 = int(ceil(len - N / 2))` (its value is stated by `Bouts.SliceFits`) |
| Bouts.SliceFits | src/skdh/activity/endpoints.py:157-160 | the slice `[i1, i2)` lies inside the record and holds exactly `len - N + 1` entries, as many as the moving mean writes |
| Bouts.BreakScores | src/skdh/activity/endpoints.py:155-160 | the break detector exists iff `1 <= N <= len` and has one score per epoch |
| Bouts.BreakScoreAt | src/skdh/activity/endpoints.py:155-160 | an epoch's break score is 0 iff it lies outside the slice or its N-epoch window has no qualifying epoch |
| Bouts.Penalty | src/skdh/activity/endpoints.py:162 | the penalty `-(60 / wlen) * W` stored in an integer array is never positive; written with integer division, it is the truncation of the exact product (`Bouts.PenaltyTruncates`) |
| Bouts.PenaltyTruncates | src/skdh/activity/endpoints.py:162 | truncating the exact real product `-(60 / wlen) * W` toward zero, as storing into the integer array does, gives minus the integer quotient of `60 * W` by wlen |
| Bouts.Penalised | src/skdh/activity/endpoints.py:162 | one entry per epoch; which entries are penalised is `Bouts.PenaltyWhere` |
| Bouts.PenalisedMask | src/skdh/activity/endpoints.py:150-162 | the penalised mask exists iff the break window fits in the record, and has one entry per epoch |
| Bouts.PenaltyWhere | src/skdh/activity/endpoints.py:155-162 | an epoch is penalised iff it is outside the slice or its break window holds no qualifying epoch; otherwise it keeps its mask value |
| Bouts.PenalisedMaskValues | src/skdh/activity/endpoints.py:152-162 | each entry is the mask value or the penalty, so at most 1 and never the marker 2 |
| Bouts.LongBreakPenalised | src/skdh/activity/endpoints.py:154-162 | a break of N non-qualifying epochs (more than a minute) penalises the epoch at offset `i1` inside it |
| Bouts.PenaltyOutweighsWindow | src/skdh/activity/endpoints.py:162 | for epochs of at most a minute the truncated penalty `-(60/wlen)*W` is at most `-W` |
| Bouts.PenalisedNeverInBout | src/skdh/activity/endpoints.py:161-166 | for epochs of at most a minute (`wlen <= 60`) and `boutcrit >= 0`, no window containing a penalised epoch passes, so a break longer than a minute is never bridged |
| Bouts.TwoMinuteEpochsBridgeBreak | src/skdh/activity/endpoints.py:150-176 | with two-minute epochs the record [1, 0, 1], W = 3 and `boutcrit = 0` is credited all 3 epochs: a two-minute break lies inside a bout |
| Bouts.ExceedingPasses | src/skdh/activity/endpoints.py:166-170 | `rm > boutcrit` at k iff the penalised window starting at k has mean above `boutcrit` |
| Bouts.Starts | src/skdh/activity/endpoints.py:170-198 | the accepted starts are exactly the windows passing the test; policy 4 adds the first-and-last-epoch test |
| Bouts.StartsAreAccepted | src/skdh/activity/endpoints.py:170-198 | every listed start is an accepted window and every accepted window is listed |
| Bouts.Mark | src/skdh/activity/endpoints.py:171-173 | marking keeps the record's length; which epochs get the marker is `Bouts.MarkedIsCovered` |
| Bouts.Marked | src/skdh/activity/endpoints.py:174-175 | the result is a 0/1 mask of the record's length |
| Bouts.MarkedIsCovered | src/skdh/activity/endpoints.py:171-175 | after marking, an epoch counts iff it lies in a window `[p, p+W)` of a listed start |
| Bouts.MarkedIsUnion | src/skdh/activity/endpoints.py:170-176 | the marked epochs are exactly the union of the accepted W-windows |
| Bouts.Policy34Epochs | src/skdh/activity/endpoints.py:150-205 | policies 3/4 raise iff the break window does not fit; otherwise the epochs lie in [0, len] |
| Bouts.Policy34IsUnion | src/skdh/activity/endpoints.py:150-205 | policies 3/4 credit the number of epochs in the union of the accepted W-windows of the penalised mask |
| Bouts.Policy4AtMostPolicy3 | src/skdh/activity/endpoints.py:196-198 | policy 4 only filters policy 3's starts, so it never credits more |
| Bouts.Policy3AllQualifyingMinuteEpochs | src/skdh/activity/endpoints.py:150-176 | with one-minute epochs an all-qualifying record of N > W epochs gets N - 1 epochs from policy 3: the last epoch is outside the slice and penalised |
| Bouts.MinuteEpochsPenalisedOnes | src/skdh/activity/endpoints.py:155-162 | with one-minute epochs the penalised all-qualifying mask is ones followed by `-W` in the last epoch |
| Bouts.OnesThenPenaltyWindows | src/skdh/activity/endpoints.py:166-170 | on that mask exactly the windows avoiding the last epoch exceed `boutcrit` |
| Bouts.MarkedAllButLast | src/skdh/activity/endpoints.py:171-175 | marking every window that avoids the last epoch covers every epoch but the last |
| BoutLoops.Policy1Loop | src/skdh/activity/endpoints.py:105-129 | the outer `while` of policy 1 computes the functional policy-1 total, between 0 and len |
| BoutLoops.Policy1Step | src/skdh/activity/endpoints.py:110-129 | one iteration advances the scan and splits the total into its credit plus the rest of the scan |
| BoutLoops.ExtendLoop | src/skdh/activity/endpoints.py:114-117 | the inner `while` stops at the end the functional definition gives |
| BoutLoops.Policy2Loop | src/skdh/activity/endpoints.py:130-149 | the policy-2 loop computes the functional policy-2 total, between 0 and len |
| BoutLoops.SumLoop | src/skdh/activity/endpoints.py:149 | the accumulated sum is the total of the mask |
| BoutLoops.MarkWindows | src/skdh/activity/endpoints.py:171-173 | the nested marking loops give the same array as the marking function |
| Windowed.MovingMean | src/skdh/activity/endpoints.py:160-168 | the stride-1 moving mean exists iff the window fits, has `len - n + 1` entries, and entry k is the mean of epochs `[k, k+n)` |
| Windowed.MovingMeanOfParts | src/skdh/activity/endpoints.py:428-433 | every window of either block is a window of the two blocks joined, at offset 0 or at the first block's length |
| Windowed.Nonzero | src/skdh/activity/endpoints.py:107 | `nonzero` lists, in increasing order, exactly the indices of non-zero entries |
| Windowed.Rle | src/skdh/activity/endpoints.py:669 | the runs tile the sequence: consecutive, non-empty, each of one value and maximal |
| Windowed.RleRoundTrip | src/skdh/activity/endpoints.py:669 | expanding the run-length encoding gives back the sequence |
| Windowed.RleOnesCount | src/skdh/activity/endpoints.py:668-671 | the lengths of the 1-runs of a mask add up to its number of ones |
| Windowed.TruncToInt | src/skdh/activity/endpoints.py:98 | Python `int()` truncates toward zero: the result is within one of the value, on the same side of zero, and never further from zero |
| Windowed.TruncOfQuotient | src/skimu/sleep/sleep.py:333-334 | `int(a / k)` of a non-negative a and positive k is integer division |
| Windowed.MaskCountIsCardinality | src/skdh/activity/endpoints.py:492 | the sum of a 0/1 mask is the number of its 1 positions |
| Tables.Add | src/skdh/activity/endpoints.py:494 | `+=` on a float cell gives a number iff both sides are numbers, and then their sum; NaN on either side gives NaN |
| Tables.NanMax | src/skdh/activity/endpoints.py:433 | `nanmax` of two cells is NaN iff both are; otherwise it is one of them and at least every numeric one |
| Tables.Put | src/skdh/activity/endpoints.py:494 | writing `results[name][i]` changes that cell only and keeps every column's length |
| Tables.PutAll | src/skdh/activity/endpoints.py:701-705 | writing a list of cells of distinct columns at day i leaves exactly those values and touches no other cell |
| Tables.PutPut | src/skdh/activity/endpoints.py:494 | a second write to a cell overwrites the first |
| Tables.ParseRendered | src/skdh/activity/endpoints.py:385 | reading back the decimal rendering `f"{n}"` gives n |
| Tables.Qualify | src/skdh/activity/endpoints.py:225-229 | `f"{state} {name}"`: the state label, a space and the name (its injectivity is `Tables.QualifyInjective`) |
| Tables.QualifyAll | src/skdh/activity/endpoints.py:225-227 | a list of names is qualified element by element, keeping its length |
| Tables.QualifyInjective | src/skdh/activity/endpoints.py:225-229 | the name `f"{state} {name}"` determines both the state and the name |
| Tables.QualifyAllDistinct | src/skdh/activity/endpoints.py:226-227 | qualifying a list of distinct names keeps them distinct |
| Tables.Numbered | src/skdh/activity/endpoints.py:385 | one name per number, the number rendered in decimal between a fixed prefix and suffix, as the f-strings at :385 and :536 build (distinct by `Tables.NumberedDistinct`) |
| Tables.NumberedDistinct | src/skdh/activity/endpoints.py:536 | numbered names of distinct numbers are distinct |
| Endpoints.TotalName | src/skdh/activity/endpoints.py:453 | the column `f"{state} {level} {epoch_length}s epoch [min]"` (injectivity of the state prefix is `Tables.QualifyInjective`) |
| Endpoints.LevelCount | src/skdh/activity/endpoints.py:492 | the count at the level is between 0 and the block length |
| Endpoints.LevelCountIsCardinality | src/skdh/activity/endpoints.py:492 | the count is the number of epochs with `lower <= a < upper` |
| Endpoints.LevelCountAppend | src/skdh/activity/endpoints.py:492 | counts of consecutive blocks add up to the count of the joined blocks |
| Endpoints.TotalPredict | src/skdh/activity/endpoints.py:492-494 | only the day's cell changes, and it gains exactly the block's epochs at the level divided by `epochs_per_min` (NaN stays NaN): between 0 and the block's minutes |
| Endpoints.TotalBlocksAdd | src/skdh/activity/endpoints.py:492-494 | two blocks of a day leave the same cell as one block made of both |
| Endpoints.BoutNames | src/skdh/activity/endpoints.py:535-537 | one column name per bout length (distinct for distinct lengths by `Endpoints.BoutNamesDistinct`) |
| Endpoints.BoutNamesDistinct | src/skdh/activity/endpoints.py:535-537 | distinct bout lengths give distinct column names |
| Endpoints.BoutPredict | src/skdh/activity/endpoints.py:580-590 | only the day's cells of the bout columns change; the call raises iff some bout length raises |
| Endpoints.BoutPredictFrom | src/skdh/activity/endpoints.py:580-590 | from bout length k on, only those columns' day cells change; the loop raises iff some later bout length raises, and then with that length's error |
| Endpoints.BoutPredictFromValueAt | src/skdh/activity/endpoints.py:580-590 | from bout length k on, without an error, the column of a later distinct bout length gains exactly that length's minutes in bouts |
| Endpoints.BoutPredictValues | src/skdh/activity/endpoints.py:580-590 | for distinct bout lengths and without an error, each column gains its own bout minutes, between 0 and the block's duration (repeated lengths: `Endpoints.BoutPredictSums`) |
| Endpoints.BoutPredictFromSum | src/skdh/activity/endpoints.py:580-590 | from bout length k on, a column gains the minutes of every later bout length written under its name |
| Endpoints.BoutPredictSums | src/skdh/activity/endpoints.py:580-590 | without an error, every column gains the sum of the minutes of the bout lengths written under its name, repeated ones included; a column no bout length names is unchanged |
| Endpoints.RepeatedBoutLengthCountsTwice | src/skdh/activity/endpoints.py:535-537 | a bout length listed twice adds the block's minutes in its bouts twice into its single column |
| Endpoints.BoutBlocksAccumulate | src/skdh/activity/endpoints.py:580-590 | for distinct bout lengths, over two blocks a cell gains the sum of the two blocks' bout minutes |
| Endpoints.BoutBlocksSum | src/skdh/activity/endpoints.py:580-590 | over two blocks, with bout lengths repeated or not, every column gains the sum of what the two blocks credit to it |
| Endpoints.MaxNames | src/skdh/activity/endpoints.py:385 | one column name per window length (distinct for distinct lengths by `Endpoints.MaxNamesDistinct`) |
| Endpoints.MaxNamesDistinct | src/skdh/activity/endpoints.py:385 | distinct window lengths give distinct column names |
| Endpoints.WindowMax | src/skdh/activity/endpoints.py:427-430 | the block maximum exists iff the window fits in the block (otherwise `moving_mean` raises) |
| Endpoints.WindowMaxIsLargestMean | src/skdh/activity/endpoints.py:428 | the maximum is the mean of some window and at least the mean of every window |
| Endpoints.MaxPredict | src/skdh/activity/endpoints.py:422-433 | only the day's cells of the max columns change, and no day cell ever decreases |
| Endpoints.MaxPredictFrom | src/skdh/activity/endpoints.py:422-433 | from window length k on, only those columns' day cells change and none decreases |
| Endpoints.MaxPredictValues | src/skdh/activity/endpoints.py:422-433 | every window length before the first one that does not fit (all of them when all fit) turns its column into the `nanmax` of its value and the block's largest window mean |
| Endpoints.MaxPredictFromValueAt | src/skdh/activity/endpoints.py:422-433 | from window length k on, a window length whose predecessors from k all fit gets the `nanmax` of its value and the block's largest window mean |
| Endpoints.MaxSkipsAfterTooLong | src/skdh/activity/endpoints.py:427-430 | once a window length does not fit, neither its cell nor any later window's cell changes |
| Endpoints.MaxBlocksAtMostWhole | src/skdh/activity/endpoints.py:428-433 | each block's maximum is at most the maximum over the joined blocks |
| Endpoints.WindowOfPart | src/skdh/activity/endpoints.py:428 | a window inside either block has the same mean in the joined data |
| Endpoints.MaxBlocksCanMissStraddlingWindow | src/skdh/activity/endpoints.py:428-433 | blocks [0,1] and [1,0] both give 0.5 for two-epoch windows, the joined data 1.0 |
| Gradient.Edge | src/skdh/activity/endpoints.py:281-282 | `ig_levels`: 0, 0.025, ..., 4.0 in steps of 25 mg, then 8.0 (strictly increasing by `Gradient.EdgesIncrease`) |
| Gradient.EdgesIncrease | src/skdh/activity/endpoints.py:281-283 | the 162 bin edges 0, 0.025, ..., 4.0, 8.0 g increase strictly |
| Gradient.BinOf | src/skdh/activity/endpoints.py:326-327 | a value is counted iff it is in [0, 8], and then in a bin that contains it (the last bin closed) |
| Gradient.BinOfUnique | src/skdh/activity/endpoints.py:326-327 | the bins do not overlap |
| Gradient.Histogram | src/skdh/activity/endpoints.py:327 | one count per bin, 161 bins (each count is stated by `Gradient.HistogramCounts`) |
| Gradient.HistogramCounts | src/skdh/activity/endpoints.py:326-327 | each histogram count is the number of epochs in its bin |
| Gradient.HistogramAppend | src/skdh/activity/endpoints.py:326-329 | histograms of consecutive blocks add up bin by bin |
| Gradient.HistogramTotal | src/skdh/activity/endpoints.py:326-327 | the counts add up to the number of epochs in [0, 8] |
| Gradient.Predict | src/skdh/activity/endpoints.py:326-335 | each bin gains the block's count divided by `epochs_per_min`, and the day is remembered |
| Gradient.PredictBlocks | src/skdh/activity/endpoints.py:326-329 | two blocks accumulate the same histogram as one block made of both |
| Gradient.Names | src/skdh/activity/endpoints.py:276-277 | the three state-qualified columns of the gradient (distinct by `Gradient.NamesDistinct`) |
| Gradient.NamesDistinct | src/skdh/activity/endpoints.py:276-277 | the three gradient columns are distinct |
| Gradient.MidpointMg | src/skdh/activity/endpoints.py:283 | `ig_vals * 1000`: the bin's midpoint in mg, which lies strictly inside the bin |
| Gradient.Occupied | src/skdh/activity/endpoints.py:348-349 | the occupied-bin mask is 1 exactly where the histogram is positive |
| Gradient.NonzeroCount | src/skdh/activity/endpoints.py:348-351 | the number of regression points is the number of occupied bins |
| Gradient.Square | src/skdh/activity/endpoints.py:359 | `rval**2` is a number iff rval is, and then it is rval times rval, never negative |
| Gradient.Gradients | src/skdh/activity/endpoints.py:348-359 | NaN three times when at most one bin is occupied; otherwise the fit's slope, intercept and squared correlation on the occupied bins' midpoints in mg and their minutes |
| Gradient.Reset | src/skdh/activity/endpoints.py:337-366 | without a remembered day the table is unchanged; with one, exactly the three day cells get the gradient values; the cache is always emptied |
| Gradient.ResetTwice | src/skdh/activity/endpoints.py:361-366 | a second `reset_cached` right after the first changes nothing |
| Gradient.ConstantDayHasNoGradient | src/skdh/activity/endpoints.py:326-352 | a state whose epochs all have one value occupies at most one bin, so all three cells become NaN |
| Gradient.OccupiedAtMostOne | src/skdh/activity/endpoints.py:348-352 | a histogram that is zero outside one bin has at most one regression point |
| Fragmentation.Names | src/skdh/activity/endpoints.py:608-618 | five state-qualified columns for the level (distinct by `Fragmentation.NamesDistinct`) |
| Fragmentation.NamesDistinct | src/skdh/activity/endpoints.py:608-618 | the five fragmentation columns are distinct |
| Fragmentation.Predict | src/skdh/activity/endpoints.py:668-679 | collected lengths keep their prefix, grow by the block's minutes at the level, and every length is at least 1 |
| Fragmentation.OnesLengthsNonEmpty | src/skdh/activity/endpoints.py:669-671 | every run length `rle` reports is at least 1 |
| Fragmentation.PredictBlocks | src/skdh/activity/endpoints.py:668-671 | over two blocks the lengths add up to the minutes at the level of both blocks |
| Fragmentation.SplitRunCountedTwice | src/skdh/activity/endpoints.py:668-671 | a run continued across two blocks is collected as two runs, [1, 1], not [2] |
| Fragmentation.StatValues | src/skdh/activity/endpoints.py:701-705 | the five statistics in the order of the columns they are written to |
| Fragmentation.Reset | src/skdh/activity/endpoints.py:681-714 | with a remembered day exactly the five day cells get the statistics of the collected lengths; the cache is always emptied |
| Fragmentation.ResetTwice | src/skdh/activity/endpoints.py:707-714 | a second `reset_cached` right after the first changes nothing |
| Fragmentation.StatsSeeEveryBlock | src/skdh/activity/endpoints.py:668-705 | the statistics see the run lengths of every block of the state, in block order |
| SleepDays.EmptySheet | src/skimu/sleep/sleep.py:259-270 | the table starts with one empty column per fixed name and per metric name |
| SleepDays.AppendRow | src/skimu/sleep/sleep.py:280-282 | every column gains one NaN cell at the end |
| SleepDays.SetLast | src/skimu/sleep/sleep.py:284-356 | `sleep[c][-1] = v` changes only the last cell of column c to v; every other cell and column is kept |
| SleepDays.ApplyWrites | src/skimu/sleep/sleep.py:284-356 | the day's assignments in program order keep the columns and their lengths (what they write is `SleepDays.ApplyWritesAppend`) |
| SleepDays.ApplyWritesAppend | src/skimu/sleep/sleep.py:280-356 | assigning to the last cells is the same as building the day's row apart and appending it |
| SleepDays.ApplyRowLastWrite | src/skimu/sleep/sleep.py:284-356 | an assignment that no later assignment of the day overwrites survives in the row |
| SleepDays.LongEnough | src/skimu/sleep/sleep.py:276 | a day is analysed unless `(stop - start) / (3600 * fs) < min_day_hrs` |
| SleepDays.WornEnough | src/skimu/sleep/sleep.py:302 | a day gets TSO values unless its worn samples over `3600 * fs` fall below `min_wear_time` |
| SleepDays.MinuteIndex | src/skimu/sleep/sleep.py:333-334 | `int(idx / int(60 * fs))` (integer division for a non-negative index by `SleepDays.MinuteIndexDivides`) |
| SleepDays.PredictionsDuringTso | src/skimu/sleep/sleep.py:335 | `predictions[tso_start:tso_stop]` with Python's clamped slicing (`SleepDays.PySlice`) |
| SleepDays.TsoMinutes | src/skimu/sleep/sleep.py:348 | the TSO length `(tso[3] - tso[2]) / (fs * 60)` in minutes |
| SleepDays.DayWrites | src/skimu/sleep/sleep.py:284-356 | every assignment of the day goes to a column the table has |
| SleepDays.DayRow | src/skimu/sleep/sleep.py:280-356 | the day's finished row has exactly the table's columns |
| SleepDays.PySlice | src/skimu/sleep/sleep.py:335 | Python slicing with clamped bounds: an in-range slice is the plain subsequence, and a slice is never longer than the list |
| SleepDays.MinuteIndexDivides | src/skimu/sleep/sleep.py:333-334 | for a non-negative sample index the minute index is integer division by `int(60 * fs)` |
| SleepDays.DayStep | src/skimu/sleep/sleep.py:273-356 | a day shorter than `min_day_hrs` leaves the table unchanged; any other day appends exactly its own row to every column |
| SleepDays.RowDayAndDate | src/skimu/sleep/sleep.py:283-291 | the row's day number is `iday + 1` and its date is the day's date |
| SleepDays.RejectedDayRow | src/skimu/sleep/sleep.py:298-323 | a day with too little wear or no TSO keeps its row, with every column but day number and date NaN |
| SleepDays.AcceptedDayRow | src/skimu/sleep/sleep.py:344-356 | an accepted day's row holds the TSO start timestamp, the TSO start formatted as a string, the TSO length in minutes, and each metric on the predictions during the TSO |
| SleepDays.Accepted | src/skimu/sleep/sleep.py:273-278 | the days given a row are, in increasing order, exactly those long enough to analyse |
| SleepDays.Tabulate | src/skimu/sleep/sleep.py:259-356 | the loop yields the fixed and metric columns, all of one length, one row per long-enough day, each row its own day's; day numbers increase down the rows |
| SleepDays.DayNumbersIncrease | src/skimu/sleep/sleep.py:273-284 | "Day N" lists the accepted days numbered from 1, strictly increasing |

## Where the code departs from its comments and documentation

The model follows the code in each of these cases.

- The docstring of `get_activity_bouts` suggests every policy credits an all-qualifying record in full. That holds for policy 2 when W >= 1 and `boutcrit < 1` (`Bouts.Policy2AllQualifying`); with `boutcrit = 1`, the top of the documented range, every start fails the strict `sum > W * boutcrit` and is demoted. It holds only partly for the others:
  - Policy 1 needs more than W epochs, because `end < x.size` is strict (`Bouts.Policy1NeedsMoreThanWindow`).
  - Policies 3 and 4 penalise the epochs outside the break-detector slice. With one-minute epochs the last epoch is never credited (`Bouts.Policy3AllQualifyingMinuteEpochs`).
- The docstring of `BoutIntensityTime` lists `bout_metric` values {1, 2, 3, 4, 5}, but `get_activity_bouts` raises `ValueError` for 5 as for any value outside {1, 2, 3, 4} (`InvalidBoutMetric` in `Bouts.ActivityBouts`).
- Policies 3 and 4 catch a `ValueError` only around the bout moving mean. The break-detector moving mean is outside the `try`, so a record shorter than `60/wlen + 1` epochs raises (`BreakWindowTooLong`) instead of giving 0.
- The docstring of policies 3 and 4 says breaks longer than a minute are not allowed. That holds for epochs of at most a minute (`Bouts.PenalisedNeverInBout`). For longer epochs the break detector's window `int(60 / wlen) + 1` is a single epoch and the penalty `int(-(60 / wlen) * W)` is smaller than W: with two-minute epochs a two-minute break sits inside a credited bout (`Bouts.TwoMinuteEpochsBridgeBreak`).
- `MaxAcceleration.predict` ends the whole call with `return` when a window does not fit. Every later window length of that block is skipped too (`Endpoints.MaxSkipsAfterTooLong`).
- The per-day maximum over blocks can be below the maximum over the whole day, because a window straddling two blocks is never seen (`Endpoints.MaxBlocksCanMissStraddlingWindow`).
- In the sleep loop, a day rejected for low wear or for having no TSO still keeps its row, holding only day number and date. Only days shorter than `min_day_hrs` get no row.

## Left out

- Plotting, logging and `_tabulate_results` of the sleep process. They produce no value the table holds.
- The downsampling step and the default full-wear array of the sleep process are not computed; they decide what the parameters are. `Env.fs` is `goal_fs`: 20 when downsampling applies, the input rate otherwise. The day windows are `days_ds`, and `wornSamples` counts samples of `wear_ds`, which is `[[0, time.size]]` (full wear) when no wear detection was given.
- Datetime handling: the date of a day (with the `day_key` hour correction) and the `strftime` of the TSO start are the parameters `date` and `stamp`.
- The collaborators of the sleep loop are parameters:
  - `get_day_wear_intersection` (as the worn-sample count);
  - `get_total_sleep_opportunity`;
  - `compute_activity_index` and `compute_sleep_predictions` (as the per-minute predictions);
  - each sleep metric's `predict` (as `metric`).

  Their run-length arguments are derived from the predictions and are not passed separately.
- `linregress` and `log` of the gradient fit, and the five functions of `fragmentation_endpoints`, are parameters (`fit`, `stats`). Floating-point logarithms and regressions are outside the model.
- Floating point: values are exact reals and bin edges are exact multiples of 0.025. Rounding in `boutdur * (60 / wlen)`, in `-(60 / wlen) * nboutdur`, in the `boutcrit` products `nboutdur * boutcrit` and `(end + 1 - start) * boutcrit`, in the moving-mean division, in the per-bout `+= ... * (wlen / 60)` of policy 1, in the edge array, and in the division by `epochs_per_min` is not modelled. The strict `>` tests against `boutcrit` are where a double and an exact real can disagree.
- Bouts.Penalty: truncates the exact product, not the double-precision one. The two differ when rounding puts the float product just inside a whole number: with `wlen = 13` and W = 13 Python stores -59 where the model has -60. The difference is one unit of a penalty that is already at most -W for one-minute-or-shorter epochs, and it changes a bout total only for a `boutcrit` far below zero.
- NaN or infinite acceleration values are not modelled; every input epoch is a real number.
- `moving_mean` is assumed to raise `ValueError` for a window below 1 as well as for one longer than the data.
- `get_level_thresholds`, `handle_cutpoints` and the cut-point tables are not part of this model; thresholds are inputs.
- The per-endpoint `__init__` argument handling (a single int turned into a list) is not modelled; lengths are always lists.
- The results dictionary having every column an endpoint writes is a precondition (`Slots`, `HasSlot`). The source would raise `KeyError` or `IndexError` there, and its caller always allocates the columns. `epochs_per_min > 0` and `60 * fs >= 1` are preconditions for the same reason.
- The state is `wake` or `sleep` (an enumeration), not an arbitrary string.
- SleepDays.AcceptedDayRow: a metric's cell is stated only for a metric name no later metric reuses. With a repeated name the last metric wins, and this is not stated.
- SleepDays.Tabulate: increasing day numbers are stated only when no metric is named like a fixed column, since such a metric would overwrite "Day N".
