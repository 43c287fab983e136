# Eye-tracking import and analysis: a Dafny model

This project models the pure, sequential logic of the eye-tracking tooling in
`utils/ogama.py`, `utils/pygazehelper/pygaze.py` and
`utils/pygazehelper/pygaze_peitek.py`: everything that decides what is handed
to the fixation and saccade detectors and what would be written to the Ogama
database or the result frames, with pandas, sqlite and the file system taken
away.

- **Segmentation** (`segmentation.dfy`). An SMI/Tobii recording is cut into
  task segments at the `MSG` rows whose message (the text after `Message: `)
  mentions `.jpg`. `PlanOf` is the reference definition over the list of task
  markers. `SplitTasks` is the one-pass loop both importers run, and it is
  proved equal to `PlanOf`.
- **EMIP import** (`emip.dfy`). Times are shifted and converted to
  milliseconds. Each segment's right-eye-valid samples become raw rows plus
  one `Trials` row.
- **Sharafi import** (`sharafi.dfy`). Only included rows are kept, image
  names lose their extension and times are shifted. Each image becomes one
  trial.
- **Peitek preprocessing** (`peitek.dfy`). Positions are converted to
  pixels. A per-eye miss flag is computed and missing eyes get a sentinel.
  The gaze point is the mean of the two eyes.
  - The same module holds the PyGaze fixation export of
    `analyze_csv_data_pygaze` and the Ogama Peitek import.
- **Registry** (`registry.dfy`). The trial-id counter and the subject list
  that the Peitek importer keeps between calls, as explicit state.
- **PyGaze driver** (`pygaze.py`, in `pygaze.dfy`). This covers:
  - the detector wrappers that append one summary row per call;
  - the Tobii and Ogama-text preparers;
  - the file-extension dispatch.
- **Summaries** (`summaries.dfy`). Count, total and mean per task and per
  trial, with the mean defined as 0 when nothing is counted.
- **Helpers.** `seqs.dfy` (filter, project, unique, group), `strings.dfy`
  (the Python string operations used) and `stats.dfy` (sum, mean, min, max,
  truncation) are shared.

The detectors (`fixation_detection_fixed`, `saccade_detection_fixed`) are not
part of this model. They are function-typed parameters (`detectors.dfy`), so
every property holds for whatever detector is plugged in. Pandas'
`Series.unique()` lists values in order of first appearance, which
`Seqs.Distinct` follows. `groupby` iterates its keys in sorted order; the
model lists groups in first-appearance order instead (see "Left out").
Integer `int()` casts are truncation toward zero (`Stats.Trunc`).

## Model

| member | source | states |
|---|---|---|
| Strings.IndexFromSpec | utils/ogama.py:225 | the search returns the first index at or after the start where the pattern occurs, and nothing only when it occurs nowhere there |
| Strings.ContainsSpec | utils/ogama.py:225 | `pat in s` holds exactly when `pat` occurs in `s` at some index |
| Strings.SplitSecondSpec | utils/ogama.py:224 | `split(sep)[1]` fails exactly when the separator is absent; otherwise the result is the text after the first separator up to the next separator or the end: a prefix of it at no index of which a separator starts (so even an overlapping separator cuts there), and followed by one whenever it stops early |
| Strings.SplitSecondRoundTrip | utils/ogama.py:224 | `prefix + sep + name` splits back to `name` whenever `name` has no separator and none occurs before the written one |
| Segmentation.MessageRoundTrip | utils/ogama.py:224 | a cell `prefix + 'Message: ' + message` yields `message` whenever neither part contains `Message: ` |
| Strings.Before | utils/pygazehelper/pygaze.py:113 | `split('_')[0]` is the longest prefix without `_`, followed in the name by `_` when shorter than the name |
| Strings.BeforeRoundTrip | utils/pygazehelper/pygaze.py:113 | a participant id without `_` is recovered from `id + '_' + rest` whatever the rest is |
| Strings.AfterLast | utils/pygazehelper/pygaze.py:148-149 | `split('/')[-1]` is the suffix after the last `/`, and contains no `/` |
| Strings.AfterLastRoundTrip | utils/pygazehelper/pygaze.py:148-149 | the last component of `dir + '/' + name` is `name` when `name` has no `/` |
| Strings.DropLast | utils/ogama.py:21 | `s[:-4]` is a prefix of `s`, 4 characters shorter, or empty for shorter strings |
| Strings.Extension | utils/pygazehelper/pygaze.py:201 | the extension `os.path.splitext` returns is empty, or a suffix of the name that begins with a dot, contains no further dot, and follows a stem that is not all dots |
| Strings.ExtensionRoundTrip | utils/pygazehelper/pygaze.py:201 | a stem that is not all dots, followed by `.ext` without dots, has extension `.ext` |
| Seqs.Filter | utils/ogama.py:138 | a boolean mask keeps exactly the elements satisfying the predicate and never grows the frame |
| Seqs.FilterConcat | utils/ogama.py:138 | masking a concatenation gives the concatenation of the masks, so kept rows stay in frame order |
| Seqs.Distinct | utils/pygazehelper/pygaze.py:165 | `unique()` lists every value of the column exactly once and nothing else |
| Seqs.DistinctFirstAppearance | utils/pygazehelper/pygaze.py:165 | `unique()` lists values in order of first appearance: a value listed earlier first occurs earlier in the column |
| Seqs.Group | utils/pygazehelper/pygaze.py:167 | `df[df[col] == k]` holds exactly the rows whose key is `k` |
| Seqs.GroupConcat | utils/pygazehelper/pygaze.py:167 | selecting a key's rows from a concatenation gives the concatenation of the selections, so a group keeps frame order |
| Seqs.GroupSize | utils/pygazehelper/pygaze.py:167 | a key's group has as many rows as the key has occurrences |
| Seqs.DistinctPartition | utils/pygazehelper/pygaze.py:165-167 | the groups of the distinct keys together have exactly as many rows as the frame |
| Stats.Mean | utils/pygazehelper/pygaze.py:17 | the mean is 0 on no values and otherwise times the count gives the total |
| Stats.SumBounds | utils/pygazehelper/pygaze.py:16 | a total of values in `[lo, hi]` lies between `n*lo` and `n*hi` |
| Stats.MeanBounds | utils/pygazehelper/pygaze.py:17 | the mean of values in `[lo, hi]` lies in `[lo, hi]` |
| Stats.Trunc | utils/ogama.py:364-365 | `int()` on a float rounds toward zero: below the value by less than 1 for non-negatives, above it by less than 1 for negatives |
| Segmentation.MessageOfMeaning | utils/ogama.py:224 | an `MSG` row's task text exists iff its `L Raw X` cell is text containing `Message: `, and never contains the separator |
| Segmentation.ClassifyMeaning | utils/ogama.py:223-225 | a row starts a task iff it is an `MSG` row whose message contains `.jpg`; it aborts the import iff it is an `MSG` row that cannot be split |
| Segmentation.Markers | utils/ogama.py:223-236 | the markers of the first `k` rows are ascending rows below `k`, each a row that starts its task; failure names a row below `k` that cannot be split |
| Segmentation.MarkersSucceed | utils/ogama.py:223-224 | parsing the markers of a recording fails exactly when some `MSG` row has no `Message: ` separator |
| Segmentation.MarkersComplete | utils/ogama.py:223-225 | every task marker row of the recording appears in the marker list |
| Segmentation.MarkersLast | utils/ogama.py:235-236 | no row after the last listed marker starts a task |
| Segmentation.SplitTasks | utils/ogama.py:223-239 | the segmentation loop computes exactly the reference plan: the segments between consecutive task markers, minus removed tasks, plus the trailing segment |
| Segmentation.PlanOf | utils/ogama.py:223-239 | segmentation fails exactly when some `MSG` row cannot be split, naming such a row; otherwise the task segments are non-empty, ordered, disjoint and end before the trailing segment, which starts inside the recording |
| Segmentation.TaskSegmentsOrdered | utils/ogama.py:226-236 | emitted segments are non-empty, ascending and pairwise disjoint, between the first and the last task marker |
| Segmentation.TaskSegmentsExact | utils/ogama.py:226-228 | the range between markers `i` and `i+1` is emitted iff task `i` is not removed, and every emitted segment is such a range |
| Segmentation.PlanOrdered | utils/ogama.py:223-239 | the task segments of a recording are ordered, disjoint, inside the recording, before the trailing segment, and never of a removed task |
| Segmentation.PlanWithoutTasks | utils/ogama.py:235-239 | the trailing segment has no task exactly when no row starts a task, and then it is the whole recording and there are no task segments |
| Segmentation.PlanTrailing | utils/ogama.py:235-239 | a named trailing segment starts at the last task marker row and keeps that marker's task even when it is removed |
| Segmentation.PlanSkipsPreamble | utils/ogama.py:212-213 | rows before the first task marker lie in no task segment and before the trailing segment |
| Segmentation.PlanIgnoresTime | utils/ogama.py:200-208 | changing only the time column does not change the segmentation, so normalising times first is harmless |
| Emip.NormaliseTimes | utils/ogama.py:200-205 | every time becomes the whole milliseconds since the earliest sample; order is kept, some sample is at 0, and no other column changes |
| Emip.WriteTask | utils/ogama.py:138-175 | nothing is written iff no sample has `R Validity == 1`; otherwise one raw row per valid sample with its right-eye POR position, and a trial whose start and start + duration - 4 are the earliest and latest valid times |
| Emip.AddToSqlEmip | utils/ogama.py:136-175 | a segment without a task name fails at the trial-id lookup exactly when it has a valid sample; a named segment is written as its task |
| Emip.WriteSegments | utils/ogama.py:226-232 | at most one task write per emitted segment |
| Emip.WriteSegmentsLive | utils/ogama.py:226-232 | the emitted segments produce, in segment order, one write for each segment holding a right-eye-valid sample (that segment's task write) and none for the others |
| Emip.WritePlan | utils/ogama.py:223-239 | the writes fail exactly when no row starts a task and some row has a valid right eye; otherwise they are the writes of the kept task segments followed by the trailing segment's write; every write but the last is of a kept task |
| Emip.ImportEmip | utils/ogama.py:197-239 | a segmentation failure is passed on; otherwise the import fails, with the unnamed-task error, exactly when no row starts a task and some row has a valid right eye, and else writes, on the normalised times, the kept task segments then the trailing segment, none of a removed task except possibly the last |
| Emip.InstructionTasksNotWritten | utils/ogama.py:214-226 | with the importer's removed set, no task segment of the two instruction screens is written; only the trailing write may carry one |
| Sharafi.Prepare | utils/ogama.py:21-29 | only included rows remain, image names lose four characters, and start times keep their differences while the earliest becomes 0 |
| Sharafi.TrialOf | utils/ogama.py:61-65 | a trial starts at its group's earliest start time, and its end minus the last row's duration is the group's latest start time |
| Sharafi.TrialNames | utils/ogama.py:61 | the trials are the distinct image names of the prepared frame: no repeats, and every row's image is among them |
| Sharafi.ImportSharafi | utils/ogama.py:18-66 | one raw row per included sample in frame order with rescaled position, and one trial row per distinct image |
| Sharafi.TrialsAreUnique | utils/ogama.py:61-66 | no two trial rows share a trial id |
| Sharafi.RawRowsWithinTrials | utils/ogama.py:53-66 | every raw row's trial has a trial row, and it starts no later than the raw row |
| Summaries.Summarise | utils/pygazehelper/pygaze.py:15-17 | the count is the number of events and the average is total / count, or 0 when there are none |
| Summaries.FixationSummary | utils/pygazehelper/pygaze.py:16-17 | count is `len(Efix)`, the total is the sum of the fixation durations, and the average is total / count or 0 |
| Summaries.SaccadeSummary | utils/pygazehelper/pygaze.py:36-37 | the same count / total / average rule over `Esac`, the total being the sum of the saccade durations |
| Summaries.FixationAverageBounds | utils/pygazehelper/pygaze.py:16-17 | when every duration lies in `[lo, hi]`, so does the average, and the total lies between `n*lo` and `n*hi` |
| Summaries.SaccadeAverageBounds | utils/pygazehelper/pygaze.py:36-37 | the same bounds for saccade durations |
| Summaries.FixationSummaryAppend | utils/pygazehelper/pygaze.py:16 | counts and totals of two event lists add up |
| Summaries.SaccadeSummaryAppend | utils/pygazehelper/pygaze.py:36 | saccade counts and totals of two event lists add up |
| Summaries.ResultFor | utils/ogama.py:291-293 | a trial's result counts exactly the fixations with that trial id, at least one, its total is the sum of their lengths, and its average is total / count |
| Summaries.ResultsByTrial | utils/ogama.py:290-293 | one result per distinct trial id, each counting that trial's fixations and summing their lengths, with a consistent average |
| Summaries.ResultsCoverAllFixations | utils/ogama.py:291 | the per-trial counts add up to the number of stored fixations |
| Summaries.EmipResults | utils/ogama.py:279-293 | the result frame is empty exactly when there are no fixations, is otherwise the per-trial aggregation, and accounts for every fixation |
| Summaries.SharafiResults | utils/ogama.py:101-119 | without fixations the Sharafi aggregation aborts; otherwise it agrees with the EMIP aggregation |
| PyGaze.CallFixationDetection | utils/pygazehelper/pygaze.py:7-24 | one entry is appended to every column and earlier entries are kept; the new row holds the participant, the task, the number of detected fixations, their summed duration and a consistent average, using the default settings when none are passed |
| PyGaze.CallSaccadeDetection | utils/pygazehelper/pygaze.py:26-48 | the same for saccades, plus the mean start-to-end distance, which is 0 without saccades |
| PyGaze.StartEndDistances | utils/pygazehelper/pygaze.py:40 | one distance per saccade: the norm of its start minus its end position |
| PyGaze.RunFixationCallsRows | utils/pygazehelper/pygaze.py:20-24 | after any series of calls the columns are still the same length and earlier rows are kept, with one new row per call holding that call's fixation count and summed duration |
| PyGaze.RunSaccadeCallsRows | utils/pygazehelper/pygaze.py:43-48 | the same for a series of saccade calls: one new row per call with its saccade count and summed duration, earlier rows kept |
| PyGaze.FixationAnalysisFrame | utils/pygazehelper/pygaze.py:183-206 | starting from the empty columns, the fixation frame has exactly one row per call, in order, with that call's fixation count and summed duration |
| PyGaze.SaccadeAnalysisFrame | utils/pygazehelper/pygaze.py:223-248 | starting from the empty columns, the saccade frame has exactly one row per call, in order, with that call's saccade count and summed duration |
| PyGaze.SegmentCall | utils/pygazehelper/pygaze.py:96-111 | the detector sees only the right-eye-valid rows with their right-eye POR positions; times are non-negative, some is 0, and differences are the original ones divided by 1000 |
| PyGaze.MillisSince | utils/pygazehelper/pygaze.py:109-111 | each converted time times 1000 is the microseconds elapsed since the reference, and it is non-negative exactly when the stamp is not before the reference |
| PyGaze.PrepareTobii | utils/pygazehelper/pygaze.py:90-138 | a segmentation failure is passed on; otherwise it fails exactly when a right-eye-valid row of the trailing segment has a non-numeric `L Raw X` cell; else there is one call per kept task segment on exactly its rows with the caller's parameters, then one call on the trailing segment without them, all with the participant prefix |
| PyGaze.PrepareTobiiShape | utils/pygazehelper/pygaze.py:94-138 | every call carries the participant prefix and aligned columns; every call but the last is for a kept task with the caller's parameters, and the last has none |
| PyGaze.PrepareTxt | utils/pygazehelper/pygaze.py:142-170 | files without `ogama` in their name give no call; otherwise there is one call per distinct included image, in order of first appearance, whose times, rescaled positions and task come from exactly that image's included rows |
| PyGaze.PrepareTxtPartitions | utils/pygazehelper/pygaze.py:159-170 | the calls of a text export are for pairwise different images and together receive every included row exactly once |
| PyGaze.HandlerFor | utils/pygazehelper/pygaze.py:174-177 | a file goes to the Tobii preparer iff its extension is `.tsv`, and to the text preparer iff it is `.txt` |
| PyGaze.HandlerForNamedFile | utils/pygazehelper/pygaze.py:201-203 | `stem.tsv` and `stem.txt` reach the Tobii and text preparers for every stem that is not all dots |
| Registry.AllocateTrialId | utils/ogama.py:354-357 | a known task keeps its id and the state is unchanged; an unseen task gets the counter, which advances by one; earlier ids are kept and a consistent state stays consistent with the new id distinct from all others |
| Registry.AllocateAllNumbersFirstAppearances | utils/ogama.py:354-357 | from an empty map the tasks receive consecutive ids in order of first appearance, and the counter ends at first + number of distinct tasks |
| Registry.RegisterSubject | utils/ogama.py:439-442 | a subject is inserted exactly when it has not been recorded before, and is recorded afterwards |
| Registry.RegisterAllDistinct | utils/ogama.py:439-442 | over any series of subject registrations the recorded subjects are the distinct names in order of first appearance, so none is recorded twice |
| Peitek.MissingIffNotAccepted | utils/ogama.py:396-402 | on any screen of positive size an eye is missing iff its normalised position leaves `[-1, 2]` on an axis or its validity is below 1 |
| Peitek.ToPixels | utils/ogama.py:390-393 | pixel positions scaled back by the resolution give the normalised positions, and validity is kept |
| Peitek.MarkMissing | utils/ogama.py:405-408 | a missing eye's position becomes the sentinel, a present eye is untouched, and validity is kept |
| Peitek.MarkMissingIdempotent | utils/ogama.py:405-408 | applying the sentinel step twice gives the same result as once |
| Peitek.Preprocess | utils/ogama.py:390-423 | each eye is converted to pixels and passed through the sentinel step, and the gaze point is the mean of the two eyes regardless of the flags |
| Peitek.PreprocessBothAccepted | utils/ogama.py:422-423 | with both eyes accepted the gaze point is the mean of the two measured positions in pixels |
| Peitek.PreprocessBothRejected | utils/pygazehelper/pygaze_peitek.py:115-133 | with both eyes rejected the gaze point is exactly the sentinel |
| Peitek.PreprocessOneRejected | utils/pygazehelper/pygaze_peitek.py:132-133 | with exactly one eye rejected, left or right, the default sentinel is averaged in, halfway between the accepted eye and (-1920, -1080) |
| Peitek.RejectedSampleNotSeenAsMissing | utils/pygazehelper/pygaze_peitek.py:132-143 | a sample with both eyes rejected reaches the detector at (-1920, -1080), not at the value 0.0 the detector treats as missing |
| Peitek.DetectorTimes | utils/pygazehelper/pygaze_peitek.py:82-83 | an empty recording aborts; otherwise the first time becomes 0 and time differences become milliseconds |
| Peitek.FixationRowOf | utils/pygazehelper/pygaze_peitek.py:157-162 | the row keeps the metadata, entry `k` of the start, end and position arrays is that field of fixation `k`, and the range arrays are all zero |
| Peitek.AnalyzeRecording | utils/pygazehelper/pygaze_peitek.py:80-166 | an empty eye-tracking file aborts; otherwise the row holds the metadata and the fixations the detector finds, with the fixed settings, on columns that have one entry per sample: the preprocessed gaze point and the milliseconds since the first sample |
| Peitek.DetectorSeesTimes | utils/pygazehelper/pygaze_peitek.py:83-136 | the detector's times start at 0 and differ by the sample time differences in milliseconds |
| Peitek.DetectorSeesRejected | utils/pygazehelper/pygaze_peitek.py:115-133 | a sample with both eyes rejected reaches the detector at the sentinel |
| Peitek.DetectorSeesAccepted | utils/pygazehelper/pygaze_peitek.py:110-133 | a sample with both eyes accepted reaches the detector at the mean of the two measured positions in pixels |
| Peitek.AnalyzeAll | utils/pygazehelper/pygaze_peitek.py:73-166 | exactly one output row per behavioural row, in order, with that row's metadata; the run fails, with the empty-recording error, iff some eye-tracking file is empty |
| Peitek.Millis | utils/ogama.py:364-365 | stored milliseconds are seconds times 1000 truncated toward zero: never further from zero than the exact value and less than 1 ms from it |
| Peitek.DurationBound | utils/ogama.py:364-366 | the stored duration differs from the true one in milliseconds by less than 2, and by less than 1 for non-negative times |
| Peitek.ImportOgamaPeitek | utils/ogama.py:341-442 | one raw row per sample with the mean gaze and truncated millisecond time under the task's trial id; the trial spans the truncated start to end; the subject is inserted iff new; a known algorithm keeps its id and the counter, an unseen one gets the counter, which advances by one; the id map gains exactly that entry, the subject list grows by the subject exactly when it was inserted, and consistency of the state is kept |
| Peitek.SameTrialIffSameAlgorithm | utils/ogama.py:354-357 | two consecutive imports share a trial id exactly when they are for the same algorithm |
| Peitek.ImportSeriesState | utils/ogama.py:339-442 | a series of imports leaves the registry that allocating the algorithms' ids and registering the subject names in order leaves |
| Peitek.ImportSeriesFinal | utils/ogama.py:339-442 | from a fresh state, after any series of imports the algorithms hold consecutive ids in order of first appearance, the counter is just past them, and the recorded subjects are the distinct subject names in order of first appearance |
| Peitek.ImportSeriesFromInitial | utils/ogama.py:339-442 | from a fresh state, every import's trial row carries its algorithm's final id (a task keeps its id across calls), and a subject is inserted into `Subjects` exactly at its first import and never again |

## Left out

- The sqlite persistence (`CREATE`, `INSERT`, `DROP`, `DELETE`, `commit`) and the numpy adapters are not modelled. The model returns the raw and trial rows that would be written.
- The `Subjects` insert of the Sharafi and EMIP importers (utils/ogama.py:58, utils/ogama.py:243) is not modelled: it writes the caller's subject name unconditionally. Only the Peitek importer's guarded insert is modelled (`Registry.RegisterSubject`).
- Sharafi.ImportSharafi: trial rows are listed in order of first appearance of their image. `groupby(' ImageName')` at utils/ogama.py:61 iterates image names in sorted order, so the source inserts the same trial rows sorted by name. The model has no string order.
- File reading, the `skiprows` retry loop, `os.walk`, CSV writing and `print` diagnostics are not modelled. The records these would produce are inputs.
- `fillna(0.0)` and the dtype casts are not modelled as conversions: a cell is a number (`Num`, a cell that reads as one) or other text (`Text`). The `astype(float)` of the `L Raw X` column in the PyGaze trailing segment (utils/pygazehelper/pygaze.py:125) is modelled only as its failure on a text cell (`NonNumericCell`). Text that Python would parse as a float, such as `"nan"`, is not distinguished.
- The binocular average computed in the PyGaze trailing segment (utils/pygazehelper/pygaze.py:125-131) is not passed to the detector and is not modelled, apart from the failure above.
- The detectors' internals are not modelled. They are opaque function parameters, so no property depends on them.
- The screen-size constants of utils/peitek_opt.py and the `opt` table are a `Screen` parameter; `DefaultScreen` holds the shipped values. The interpolation, k-means and merge settings are unused by the modelled code.
- Floating point is not modelled: reals are exact, so NaN, rounding and the `1920/1024` rescaling are mathematical.
- PyGaze.CallSaccadeDetection: the Euclidean distance is a parameter (`norm`) rather than `(dx**2 + dy**2)**0.5`, because the model has no square root.
- Emip.NormaliseTimes: the `int32` cast is not modelled. Times are unbounded integers, because wrap-around needs recordings longer than 24 days.
- Sharafi.Prepare: the `int32` cast of start times is likewise not modelled.
- Emip.AddToSqlEmip: the EMIP trial-id lookup (`trial_to_num[last_task_name]`) is not modelled. The module-level name is rebound at utils/ogama.py:302 to the Peitek map, so every named task would fail the lookup. The writes carry the task name instead, and only the case without a name fails.
- Registry.AllocateTrialId: the map starts empty with the counter as a parameter (`Registry.Initial`). The program's map has integer keys and no `current_count` entry, so its first allocation would raise. The local `added_subjects = []` at utils/ogama.py:448 does not clear the global list and is not modelled.
- Summaries.ResultsByTrial: results are listed in order of first appearance. `groupby` sorts by trial id, and that order is not modelled.
- Summaries.TrialResult: the constant `Subject` column of the results frame (utils/ogama.py:116, utils/ogama.py:294) is not carried. Every row holds the caller's subject name, so it adds nothing to the per-trial figures.
- The `df_msg.size > 0` guard at utils/ogama.py:229 is not modelled, because emitted segments are never empty.
- The outer file loops of `fixation_data_analysis` and `saccade_data_analysis` are reduced to the dispatch (`PyGaze.HandlerFor`) and the fold over detector calls (`PyGaze.RunFixationCalls`). The directory walk is I/O.
- The metadata of a Peitek behavioural row is copied unchanged. `str(metadata["Participant"])` is taken as the participant's text.
