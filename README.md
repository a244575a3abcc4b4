# Pupil-dilation N-back experiment: verified model of its core

The experiment shows an N-back letter task while a Tobii eye tracker
records pupil diameters. This project models the three parts of it that
compute something, and proves properties of them in Dafny:

- **The cleaner** (`clean_eye_data.py`). For each pupil column it
  measures every sample's jump from each of its two neighbours. A sample
  is flagged as an artefact when either jump exceeds `median + 2·MAD` of
  the per-sample jumps, where MAD is scaled by 1.4826. Flagged samples
  are blanked, and the column is then filled by linear interpolation.
  Gaps at the ends take the nearest value. Files are handled one table at
  a time: an empty table is skipped, absent pupil columns are reported and
  skipped, and the output is written next to the input as
  `<stem>_clean.csv`.
- **The letter-sequence generator** (`generate_letter_seq.py`). It builds
  70 upper-case letters with no letter repeating its predecessor. It then
  draws `x` target positions, pairwise at least `n + 2` apart. Each target
  is overwritten with the letter `n` places before it, so the target is an
  N-back hit.
- **The gaze recorder** (`eye_tracking.py`). Each gaze sample yields a
  blink flag, set when either eye's validity code is non-zero. A 0→1
  change of the flag counts one blink, and every sample is buffered.
  Starting a recording resets all of this. Stopping writes one row per
  buffered sample, followed by a blink-count row.

Modules:

| module | file |
|---|---|
| `Wrappers` (`Option`) | `wrappers.dfy` |
| `Stats` (sorting, `np.median`) | `stats.dfy` |
| `Interpolation` (pandas linear interpolation, both directions) | `interpolation.dfy` |
| `CleanEyeData` (`mad`, `clean_series`) | `clean_eye_data.dfy` |
| `EyeDataFiles` (`clean_eye_file`) | `eye_data_files.dfy` |
| `LetterSequence` (`generate_letter_seq`) | `letter_seq.dfy` |
| `EyeTracking` (callback, start, stop) | `eye_tracking.dfy` |

Samples are reals, and a missing sample (NaN) is `None`. The source
flags a position when its left jump or its right jump exceeds the
threshold (clean_eye_data.py:27-30), and the model does the same
(`Flags`). Equivalently, a position is flagged exactly when the larger of
its two jumps, `diffs[i]`, exceeds the threshold (`FlagsIsDiffsAbove`).

With a NaN anywhere in a column, `np.median` yields NaN and no comparison
with it is true, so the source flags nothing. The model makes this an
explicit branch of `Mask`: an incomplete series has no flags.

Random draws are inputs. `letterDraws` lists the successive results of
`rd.choice(string.ascii_uppercase)` and `positionDraws` those of
`rd.randint(n + 2, 69)`. A loop that runs out of draws reports
`ok == false`. In the source that loop would keep drawing.

## Model

| member | source | states |
|---|---|---|
| Stats.Sort | clean_eye_data.py:11-12 | the result is an ascending rearrangement of its input (same length and multiset, sorted) |
| Stats.SortedUnique | clean_eye_data.py:11-12 | two ascending sequences with the same elements are equal, so the sorted order `np.median` reads is unique |
| Stats.Median | clean_eye_data.py:11-12 | the median lies between some element and some element of the input |
| Stats.MedianOfPermutation | clean_eye_data.py:11-12 | the median depends only on the multiset of values, not their order |
| Stats.MedianNonNegative | clean_eye_data.py:25 | the median of non-negative values is non-negative |
| Stats.MedianOfConstant | clean_eye_data.py:11-12 | the median of a constant sequence is that constant |
| Stats.MedianOfOddRearranged | clean_eye_data.py:11-12 | for an odd count, the middle element of any ascending rearrangement is the median |
| CleanEyeData.Mad | clean_eye_data.py:9-12 | the scaled median absolute deviation is never negative |
| CleanEyeData.MadOfConstant | clean_eye_data.py:9-12 | constant data have MAD 0 |
| CleanEyeData.MaxAll | clean_eye_data.py:20-23 | `np.maximum`: each entry is the larger of the two inputs at that position |
| CleanEyeData.LeftJumps | clean_eye_data.py:21 | one left jump per position, and the first position's is 0 |
| CleanEyeData.RightJumps | clean_eye_data.py:22 | one right jump per position, and the last position's is 0 |
| CleanEyeData.JumpSeenFromBothSides | clean_eye_data.py:21-22 | the jump between i and i+1 is both the right jump of i and the left jump of i+1, and equals their distance |
| CleanEyeData.LeftJumpsAreDiffPrepend | clean_eye_data.py:21 | the left jumps equal `abs(diff(x, prepend=x[0]))`, so the first position's left jump is 0 |
| CleanEyeData.RightJumpsAreDiffAppend | clean_eye_data.py:22 | the right jumps equal `abs(diff(x, append=x[-1]))`, so the last position's right jump is 0 |
| CleanEyeData.Diffs | clean_eye_data.py:20-23 | one non-negative jump per position |
| CleanEyeData.Threshold | clean_eye_data.py:25 | the threshold is at least `median(diffs)`, which is at least 0, and some position's jump is within it |
| CleanEyeData.Flags | clean_eye_data.py:27-30 | position i is flagged exactly when its left jump or its right jump exceeds the threshold |
| CleanEyeData.FlagsIsDiffsAbove | clean_eye_data.py:20-30 | flagged exactly when the larger jump `diffs[i]` exceeds the threshold |
| CleanEyeData.JumpFlagsBothEnds | clean_eye_data.py:27-30 | a jump above the threshold between i and i+1 flags both i and i+1 |
| CleanEyeData.FlagsAntitone | clean_eye_data.py:27-30 | raising the threshold never flags more positions |
| CleanEyeData.Mask | clean_eye_data.py:25-30 | one flag per sample; with a missing sample nothing is flagged; otherwise the flags are those of the threshold |
| CleanEyeData.MaskIsDiffsAboveThreshold | clean_eye_data.py:20-30 | on a complete series, flagged exactly when `diffs[i] > ts` |
| CleanEyeData.MaskOfIncomplete | clean_eye_data.py:25-30 | a series with a missing sample has no flag |
| CleanEyeData.UnflaggedExists | clean_eye_data.py:25-30 | a non-empty complete series always keeps at least one sample unflagged |
| CleanEyeData.Blank | clean_eye_data.py:31-32 | flagged positions become missing and all others keep their value |
| CleanEyeData.BlankNothing | clean_eye_data.py:31-32 | with no flag set, blanking changes nothing |
| CleanEyeData.BlankCopy | clean_eye_data.py:31-32 | the array copy with flagged positions set missing is exactly `Blank` |
| CleanEyeData.Cleaned | clean_eye_data.py:14-34 | same length and order; unflagged present samples keep their value; with any present sample, no missing value remains |
| CleanEyeData.CleanedInteriorGap | clean_eye_data.py:31-34 | a blanked or missing interior position lies on the line between its nearest kept neighbours |
| CleanEyeData.CleanedLeadingGap | clean_eye_data.py:34 | positions before the first kept sample take its value |
| CleanEyeData.CleanedTrailingGap | clean_eye_data.py:34 | positions after the last kept sample take its value |
| CleanEyeData.CleanedSmoothUnchanged | clean_eye_data.py:31-34 | a complete series with nothing flagged comes back unchanged |
| CleanEyeData.ThresholdOfEqualDiffs | clean_eye_data.py:25 | when every jump equals c, the threshold is c |
| CleanEyeData.NothingFlaggedAtMaxJump | clean_eye_data.py:27-30 | with no jump above the threshold nothing is flagged (the comparison is strict) |
| CleanEyeData.CleanedEqualDiffsUnchanged | clean_eye_data.py:14-34 | a complete series whose jumps are all equal comes back unchanged |
| CleanEyeData.CleanedShortUnchanged | clean_eye_data.py:16-17 | an empty or one-sample series comes back unchanged |
| CleanEyeData.CleanedTwoSamplesUnchanged | clean_eye_data.py:14-34 | a complete two-sample series comes back unchanged |
| CleanEyeData.ConstantDiffsZero | clean_eye_data.py:20-23 | a constant series has only zero jumps |
| CleanEyeData.CleanedConstantUnchanged | clean_eye_data.py:14-34 | a constant series comes back unchanged |
| CleanEyeData.SpikeThreshold | clean_eye_data.py:20-25 | one spike in nine constant samples gives threshold 0 |
| CleanEyeData.SpikeMask | clean_eye_data.py:27-30 | the spike and both its neighbours are flagged, nothing else |
| CleanEyeData.CleanedSpike | clean_eye_data.py:14-34 | a single spike in a constant series is removed: the result is the constant series |
| CleanEyeData.CleanedWithGaps | clean_eye_data.py:31-34 | a sample case with missing values: a missing first sample takes the nearest value, and an interior gap is filled at the midpoint |
| CleanEyeData.CleanSeries | clean_eye_data.py:14-34 | the array-based blank-then-fill computes exactly `Cleaned` |
| Interpolation.LastValidBefore | clean_eye_data.py:34 | the nearest present position before i, or none when there is none |
| Interpolation.FirstValidFrom | clean_eye_data.py:34 | the nearest present position at or after i, or none when there is none |
| Interpolation.Lerp | clean_eye_data.py:34 | the interpolating line passes through both values it joins |
| Interpolation.LerpBetween | clean_eye_data.py:34 | an interpolated value stays between the two values it joins |
| Interpolation.Interpolated | clean_eye_data.py:34 | present values are kept; with one present value the result is complete; an all-missing series is unchanged |
| Interpolation.InterpolatedInterior | clean_eye_data.py:34 | an interior gap position takes the linear value between its neighbours |
| Interpolation.InterpolatedLeading | clean_eye_data.py:34 | a leading gap takes the first present value |
| Interpolation.InterpolatedTrailing | clean_eye_data.py:34 | a trailing gap takes the last present value |
| Interpolation.InterpolatedBetween | clean_eye_data.py:34 | no filled value leaves the range of the two values around its gap |
| Interpolation.InterpolatedOfComplete | clean_eye_data.py:34 | a series with no missing value is not changed by interpolation |
| Interpolation.Interpolate | clean_eye_data.py:34 | the gap-by-gap filling loop computes exactly `Interpolated` |
| EyeDataFiles.PupilColumnsDistinct | clean_eye_data.py:7 | the two pupil columns are different |
| EyeDataFiles.IsEmpty | clean_eye_data.py:40 | a table is empty exactly when none of its columns has a row |
| EyeDataFiles.LastIndexOf | clean_eye_data.py:50 | the last occurrence of a character, or none |
| EyeDataFiles.Stem | clean_eye_data.py:50 | the stem is a prefix of the name, and when shorter it ends just before the last dot, which is neither first nor last |
| EyeDataFiles.StemOfSuffixed | clean_eye_data.py:50 | `base.ext` with a dot-free extension has stem `base` |
| EyeDataFiles.OutputPath | clean_eye_data.py:50 | the output stays in the same directory and is named `stem + "_clean.csv"` |
| EyeDataFiles.OutputPathOfEyeData | clean_eye_data.py:50 | `eye_data.csv` is cleaned into `eye_data_clean.csv` beside it |
| EyeDataFiles.Absent | clean_eye_data.py:44-47 | exactly the pupil columns missing from the table |
| EyeDataFiles.CleanedColumns | clean_eye_data.py:44-48 | no column is added or removed; listed columns are cleaned; all others are kept |
| EyeDataFiles.CleanedColumnsKeepRows | clean_eye_data.py:44-48 | no column changes its number of rows |
| EyeDataFiles.CleanEyeFile | clean_eye_data.py:36-51 | an empty table is skipped and nothing else is; otherwise the pupil columns present are cleaned, the absent ones are reported, and the output path is `OutputPath` |
| LetterSequence.Grown | generate_letter_seq.py:21-25 | no longer than the draws; its last letter is the last draw; no letter repeats its predecessor |
| LetterSequence.GrownUpper | generate_letter_seq.py:21-25 | upper-case draws give upper-case letters |
| LetterSequence.BuildSequence | generate_letter_seq.py:20-25 | the loop builds `Grown` of the draws it takes, stops at the first prefix reaching 70 letters, and fails only when the draws run out |
| LetterSequence.FarFromAll | generate_letter_seq.py:31 | a position that passes the distance test (with a positive minimum) is not yet in the set |
| LetterSequence.Placed | generate_letter_seq.py:28-32 | the accepted positions are pairwise at least the minimum distance apart, and each is one of the draws |
| LetterSequence.PlacedStep | generate_letter_seq.py:29-32 | each accepted draw is new, so it adds exactly one position |
| LetterSequence.PlaceTargets | generate_letter_seq.py:28-32 | the loop yields `Placed` of the draws it takes; on success exactly `x` positions (none when `x <= 0`); it fails only when the draws run out |
| LetterSequence.PlacedInRange | generate_letter_seq.py:30 | every accepted position lies in the range of the draws, `[n + 2, 69]` |
| LetterSequence.SortedPositions | generate_letter_seq.py:33 | the same positions, as many of them, strictly ascending |
| LetterSequence.AscendingSpacedFit | generate_letter_seq.py:31-33 | the sorted targets lie in `[n + 2, 69]` and consecutive ones are at least `n + 2` apart |
| LetterSequence.SourceIsNoTarget | generate_letter_seq.py:36-38 | no target's source `j - n` is another target |
| LetterSequence.Inserted | generate_letter_seq.py:36-38 | the insertion keeps the length |
| LetterSequence.InsertedIsHit | generate_letter_seq.py:36-38 | after insertion each target holds the letter `n` places back, and that letter is the original one |
| LetterSequence.InsertedKeeps | generate_letter_seq.py:36-38 | non-target positions keep their letters |
| LetterSequence.InsertedUpper | generate_letter_seq.py:36-38 | insertion keeps every letter upper-case |
| LetterSequence.InsertedStep | generate_letter_seq.py:36-38 | inserting one more target overwrites only that target, with the original letter `n` places back |
| LetterSequence.InsertTargets | generate_letter_seq.py:36-38 | the in-place loop, guard `j - n >= 0` included, computes exactly `Inserted` |
| LetterSequence.InsertIntoCopy | generate_letter_seq.py:36-38 | copying the letters into an array and inserting there computes exactly `Inserted` |
| LetterSequence.GenerateLetterSeq | generate_letter_seq.py:4-40 | on success the base is `Grown` of the letter draws taken, stopping at the first 70-letter prefix, and the targets are the sorted `Placed` of the position draws taken; the base has 70 upper-case letters and no immediate repeat, there are `x` fitting targets, and the output is the base with the targets inserted; it fails only when a list of draws is used up and cannot give 70 letters or `x` positions |
| LetterSequence.GeneratedHits | generate_letter_seq.py:16-38 | the output has 70 upper-case letters, and every target is an N-back hit |
| LetterSequence.OneBackRepeats | generate_letter_seq.py:22-38 | with `n == 1` and a target, the output has an immediate repeat |
| LetterSequence.FitCapacity | generate_letter_seq.py:31-33 | ascending targets spaced `n + 2` apart in `[n + 2, 69]` number at most `69 / (n + 2)` |
| LetterSequence.TargetCapacity | generate_letter_seq.py:29-32 | a set of positions in `[n + 2, 69]` pairwise at least `n + 2` apart, as the accepted ones are, has at most `69 / (n + 2)` members |
| LetterSequence.TenTargetsDoNotFit | generate_letter_seq.py:29-32 | with `n >= 5` no draws ever give ten accepted positions |
| EyeTracking.ValidityCode | eye_tracking.py:55-56 | the code under the primary key, else the fallback key, else 0 |
| EyeTracking.BlinkFlag | eye_tracking.py:55-57 | the flag is 0 or 1, and 1 exactly when either eye's code is non-zero |
| EyeTracking.NoValidityIsNoBlink | eye_tracking.py:55-57 | a sample with no validity key counts as valid |
| EyeTracking.PrimaryValidityDecides | eye_tracking.py:55-57 | when both primary keys are present the fallback keys do not matter |
| EyeTracking.TimeStamp | eye_tracking.py:50 | the sample's system time stamp, else the clock reading |
| EyeTracking.SampleOf | eye_tracking.py:50-57 | the buffered tuple is `(ts, left, right, flag)` of the sample |
| EyeTracking.SampleRows | eye_tracking.py:104-105 | one row per sample, in order, carrying the sample's fields |
| EyeTracking.Onsets | eye_tracking.py:59-62 | there are no more onsets than samples |
| EyeTracking.OnsetsAtMostOnes | eye_tracking.py:60-61 | there are no more onsets than blink samples |
| EyeTracking.OnsetsAtMostHalf | eye_tracking.py:59-62 | onsets are separated by valid samples: at most one per two samples, rounding up when the last is a blink |
| EyeTracking.OnsetsOfOneBlink | eye_tracking.py:59-62 | an unbroken blink counts once |
| EyeTracking.GazeRecorder.constructor | eye_tracking.py:8-21 | no blink seen, nothing buffered, no file open |
| EyeTracking.GazeRecorder.OnGazeData | eye_tracking.py:42-65 | the count rises by one exactly on a 0→1 flag change; `prevBlink` becomes the flag; one tuple is appended; nothing else changes |
| EyeTracking.GazeRecorder.StartRecording | eye_tracking.py:78-93 | buffer empty, count and previous flag 0, and the file opened exactly when a tracker is available |
| EyeTracking.GazeRecorder.StopRecording | eye_tracking.py:96-111 | with the file open: rows for the buffer in arrival order and then the count row, buffer emptied, file closed; otherwise nothing happens; the count is kept |
| EyeTracking.GazeRecorder.BlinkCountBounded | eye_tracking.py:60-61 | the count never exceeds the blink samples since the last start |

## Left out

- Reading and writing CSV (clean_eye_data.py:37, 51; eye_tracking.py:88-89, 105-111): a table is a map from column name to series, and the rows written are returned.
- The command line, the `rglob` search and the progress and warning messages (clean_eye_data.py:41, 46, 52-66): I/O only.
- Tobii SDK discovery, frequency setup and subscription (eye_tracking.py:24-39, 86-100): foreign calls. The tracker's availability is a constructor parameter.
- The lock (eye_tracking.py:15, 64, 103): callbacks are sequential method calls.
- `calibrate_eye_tracker`, `simulate_eye_data` and `collect_eye_data_simulated` (eye_tracking.py:68-75, 115-137): sleeping, randomness and file appends.
- The one-time debug print of the gaze keys (eye_tracking.py:45-47): output only.
- The rest of the repository (`experiment.py`, `gui.py`, `main.py`, `sound_manager.py`): screens, key polling, folders and audio. They are not part of this model.
- IEEE floating point: samples are reals, and NaN is `None`. Apart from rounding, its one effect on the cleaner, that a NaN makes nothing flagged, is modelled explicitly in `Mask`.
- `Stats.Median` builds on the function `Stats.Sort`, an insertion sort. numpy's actual sorting algorithm is not modelled; `Stats.SortedUnique` shows that any correct sort gives the same median.
- The value of `time.time()` when a sample has no time stamp is the parameter `now`. The difference in units from the SDK's microsecond stamps is not modelled.
- LetterSequence.PlaceTargets: does not model the loop spinning forever when the draws never produce `x` spaced positions. A finite list of draws stands in for the random source, and running out is reported as failure.
- LetterSequence.BuildSequence: the same stand-in for the random letters. Running out of draws is reported as failure.
- LetterSequence.GenerateLetterSeq: requires `n >= 0`. The callers parse `n` from a sequence split on `-` (experiment.py:121, gui.py:51), so it is never negative. It also requires every position draw to lie in `[n + 2, 69]`, which is the range of `randint`. When `n + 2 > 69`, `randint` raises; in the model no draw can exist, so the build reports failure.
- LetterSequence.PlaceTargets: with `x = 10`, as the callers pass it (experiment.py:17, 169; gui.py:110), and `n >= 5`, the placement loop (generate_letter_seq.py:29-32) never ends. The model reports failure once the draws run out, and `LetterSequence.TenTargetsDoNotFit` shows that no draws can succeed.
- `max_dist` (generate_letter_seq.py:18) is never used.
- `participant_id_global` and `run_id_global` are stored at start but never read; stop writes the identifiers it is given.
- The trailing blink-count row lands in the timestamp and "Left Pupil Dilation" columns of the CSV. The cleaner then reads it as a sample. This data-level effect is outside the model.
- `df[col] = ...` replaces the column in the same table object. The model returns a new table value, so aliasing of that object is not captured.
