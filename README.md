# Dropout-risk feature pipeline

This project models the per-student feature pipeline of a student dropout
predictor. The pipeline is trained and served on a course click log of the
Open University Learning Analytics shape: one row per student, day and
resource, carrying the student's static attributes (gender, region,
education, ...), the day offset `date`, the click count `sum_click` and, when
training, the `final_result`. The model covers:

- **loading** (`load_raw`): the `date` column is coerced to a number, and
  anything unreadable becomes day 0 (`loader.dfy`);
- **labelling** (`label_dropout`): a student is labelled 1 when their first
  recorded result is `"Withdrawn"` (`preprocessing.dfy`);
- **static features** (`get_static_features`): one row per student, taken
  from their first row;
- **dynamic features** (`advanced_agg`): an optional inclusive day cutoff
  first. Then the clicks are regrouped per student and day. Then per student:
  total, mean, spread, number of active days, last active day, the
  least-squares click trend (`slope`) and the mean gap between active days
  (`avg_gap`). The statistics themselves are in `statistics.dfy`, and the
  sorting and de-duplication of days in `sequences.dfy`;
- **assembly**: the left merge with zero back-fill (`prepare_inference_data`),
  and the inner join with the labels for training (`prepare_features`);
- **ranking** (`ranking.dfy`): pairing student ids with the model's
  probabilities (`zip`) and sorting them highest first;
- **the web service** (`service.dfy`): `/predict` for a CSV upload and
  `/predict-batch` for JSON records, with their error responses in order;
- **the command-line report** (`report.dfy`): the ranked results and each
  student's risk tier. A probability above 0.75 is critical, one above 0.45
  is on the watch list, and anything else is safe;
- **an end-to-end scenario** (`scenario.dfy`): a two-student log worked
  through labelling and aggregation.

The command-line tool imports `load_raw`, `get_static_features` and
`advanced_agg` from the training module (src/use.py:7). Only its
`prepare_inference_data` (src/use.py:9-21) is its own: the same static
table, dynamic table, left merge and zero fill as the first half of
`prepare_features`. The web service carries its own copy of all four
(backend/app.py:26-99). These copies behave the same as the training module's
functions, so each is modelled once (`Loader.LoadRaw`,
`Preprocessing.StaticFeatures`, `Preprocessing.AdvancedAgg`,
`Preprocessing.PrepareInferenceData`). The trained model is a parameter
(`Ranking.Model`): a function from the feature matrix to one probability per
row, whose inside is not modelled.

Two consequences of the code are easy to miss:

- **A cutoff cannot empty the feature table.** The static table is built
  from every row, and the cutoff filters only the rows that go into the
  dynamic table. So a cutoff that removes all activity still leaves one
  zero-filled row per student, and the table is empty exactly when the log
  has no rows (`Preprocessing.EmptyIffNoRows`).
- **For a `data` list of records, `/predict-batch` never returns its
  empty-table 400.** A list in which no record has a `date` key, the empty list among them, builds a frame
  without a `date` column. The lookup of that column raises, and the handler
  answers 500. Any other list yields a non-empty table
  (`Service.BatchEmptyCheckUnreachable`).

## Model

| member | source | states |
|---|---|---|
| Loader.ParseInt | src/preprocessing.py:6 | definition: reads an optionally signed decimal integer; the empty text is not one; properties in `Loader.ParseShowInt` |
| Loader.CoerceDate | src/preprocessing.py:6 | definition: `to_numeric(errors="coerce").fillna(0)` on one cell; properties in `Loader.NumericDateKept` and `Loader.NonNumericDateIsDayZero` |
| Preprocessing.GroupFirst | src/preprocessing.py:10 | definition: the one-pass `groupby().first()`; properties in `Preprocessing.GroupFirstIsFirstPresent` |
| Preprocessing.LabelDropout | src/preprocessing.py:9-13 | definition; properties in `Preprocessing.LabelDropoutSpec` |
| Preprocessing.StaticFeatures | src/preprocessing.py:15-30 | definition: the rows at the first-occurrence positions; properties in `Preprocessing.StaticFeaturesSpec` |
| Preprocessing.Surviving | src/preprocessing.py:33-35 | definition: the inclusive `date <= cutoff` filter; properties in `Preprocessing.SurvivingMembers`, `Preprocessing.NoCutoffKeepsAll` and `Preprocessing.CutoffNested` |
| Preprocessing.StudentStats | src/preprocessing.py:37-58 | definition: one student's dynamic row; properties in `Preprocessing.StudentStatsTotals` and `Preprocessing.StudentStatsDefaults` |
| Preprocessing.AdvancedAgg | src/preprocessing.py:32-61 | definition; properties in `Preprocessing.AdvancedAggSpec`, `Preprocessing.AdvancedAggKeys` and `Preprocessing.AdvancedAggDefaults` |
| Statistics.SampleVariance | src/preprocessing.py:46 | definition; properties in `Statistics.SampleVarianceProperties` |
| Statistics.Slope | src/preprocessing.py:39-41 | definition: the least-squares slope, 0 below 3 values; properties in `Statistics.SlopeOfLinear` |
| Statistics.AvgGap | src/preprocessing.py:53-56 | definition; properties in `Statistics.AvgGapSpan` and `Statistics.SortedMeanGap` |
| Preprocessing.Backfill | src/preprocessing.py:71-73 | definition: one merged row with its `fillna(0)`; its content is stated in `Preprocessing.PrepareInferenceDataSpec` (`CarriesAttrs`, `DynamicIsZero`, `CarriesDynamic`) |
| Preprocessing.MergeLeft | src/preprocessing.py:71-73 | one merged row per static row; properties in `Preprocessing.MergeLeftAt` |
| Preprocessing.PrepareInferenceData | src/use.py:9-21 | definition; properties in `Preprocessing.PrepareInferenceDataSpec` |
| Preprocessing.InnerJoin | src/preprocessing.py:77 | definition; properties in `Preprocessing.InnerJoinKeepsAll` |
| Preprocessing.PrepareFeatures | src/preprocessing.py:63-79 | definition; properties in `Preprocessing.TrainingMatchesInference` |
| Ranking.Matrix | backend/app.py:167 | one feature vector per feature row, row i's vector being row i's columns without `id_student` |
| Service.EndsWith | backend/app.py:140 | definition: `str.endswith`, the suffix is the last characters of the text |
| Service.HasDateColumn | backend/app.py:247-248 | definition: `pd.DataFrame(records)` has a `date` column iff some record has a `date` key; decides the batch 500 in `Service.PredictBatch` |
| Preprocessing.DaySum | src/preprocessing.py:37 | definition: one cell of the daily table, the student's clicks on one day; properties in `Preprocessing.SumOverDaysIsTotal` |
| Preprocessing.ActiveDays | src/preprocessing.py:37 | definition: the student's distinct days in increasing order, the keys of the daily table; properties in `Preprocessing.ActiveDaysAreSurvivingDays` and `Sequences.DistinctSorted` |
| Preprocessing.DailyClicks | src/preprocessing.py:37-51 | definition: the daily totals in day order, the list handed to `slope`; properties in `Preprocessing.SumOverDaysIsTotal` |
| Ranking.StudentIds | backend/app.py:166 | definition: the `id_student` column, entry i being row i's id; properties in `Ranking.RankedFeatures` |
| Statistics.Mean | src/preprocessing.py:45 | definition: sum over count; properties in `Statistics.SortedMeanGap` and `Preprocessing.StudentStatsTotals` |
| Statistics.Diffs | src/preprocessing.py:56 | definition: `np.diff`, the consecutive differences; properties in `Statistics.SortedMeanGap` |
| Loader.LoadRaw | src/preprocessing.py:4-7 | one row per input row, in order; only `date` changes (coerced); the set of students is unchanged |
| Loader.ParseShowInt | src/preprocessing.py:6 | reading back the decimal text of any integer gives that integer |
| Loader.NumericDateKept | src/preprocessing.py:6 | a date written in decimal, or given as a JSON number, loads as that number |
| Loader.NonNumericDateIsDayZero | src/preprocessing.py:6 | a missing date (a null, or a JSON record without the key), or a text with neither digit nor letter, loads as day 0 |
| Service.UnreadableDateIsDayZero | backend/app.py:248 | a row with an unreadable date still counts: its student gets a dynamic row, and day 0 is one of their active days when the cutoff is absent or not negative |
| Preprocessing.GroupFirstIsFirstPresent | src/preprocessing.py:10 | the one-pass group-by has one key per student, holding that student's first non-missing result |
| Preprocessing.LabelDropoutSpec | src/preprocessing.py:9-13 | one label per distinct student; the label is 1 iff the first non-missing `final_result` is "Withdrawn"; every label is 0 or 1 |
| Preprocessing.FirstOccurrences | src/preprocessing.py:22 | the positions kept are strictly increasing, are all first occurrences of their student, and include every first occurrence |
| Preprocessing.StaticFeaturesSpec | src/preprocessing.py:15-30 | one row per distinct student, with no repeated ids, and every student of the log present; rows ordered by first appearance; each row holds the attributes of that student's first row, so later conflicting rows are ignored |
| Preprocessing.NoCutoffKeepsAll | src/preprocessing.py:33-35 | without a cutoff every row is kept |
| Preprocessing.CutoffNested | src/preprocessing.py:33-35 | filtering at a later cutoff and then at an earlier one equals filtering at the earlier one |
| Preprocessing.ClickTotalMonotone | src/preprocessing.py:33-44 | with non-negative clicks, a filter that keeps more rows never lowers a student's click total |
| Preprocessing.CutoffMonotone | src/preprocessing.py:33-49 | with non-negative clicks, raising or removing the cutoff keeps every student in the dynamic table and never lowers `total_clicks` |
| Preprocessing.SumOverDaysIsTotal | src/preprocessing.py:37 | the per-day totals, summed over every active day, give the student's total: the daily regrouping loses no click |
| Preprocessing.AdvancedAggKeys | src/preprocessing.py:33-37 | a student has a dynamic row iff one of their rows survives the cutoff |
| Preprocessing.StudentStatsTotals | src/preprocessing.py:43-49 | `total_clicks` is the sum of the student's clicks; `active_days_count` counts the active days; `last_active_day` is the latest of them; `avg_daily_clicks` is total over count |
| Preprocessing.AdvancedAggSpec | src/preprocessing.py:32-49 | the dynamic row exists iff some row survives; the total is the sum of surviving clicks; the count is the number of distinct surviving dates and is positive; the last day is their maximum; the mean is total over count |
| Preprocessing.StudentStatsDefaults | src/preprocessing.py:39-58 | at least one active day; trend 0 below 3 days, gap 0 below 2 days; the spread is undefined iff there is a single day; the gap is never negative |
| Preprocessing.AdvancedAggDefaults | src/preprocessing.py:39-58 | the same degenerate-case defaults for every row of the dynamic table |
| Statistics.SampleVarianceProperties | src/preprocessing.py:46 | the spread is defined iff there are at least 2 values; it is never negative; it is 0 for a constant series |
| Statistics.PositionSpreadPositive | src/preprocessing.py:41 | the least-squares denominator is n²(n−1)(n+1)/12, positive for n ≥ 2, so the slope is defined from 3 values on |
| Statistics.SlopeOfLinear | src/preprocessing.py:39-41 | the slope of the exactly linear series a, a+b, ..., of length n is b for n ≥ 3 and 0 below |
| Statistics.SortedMeanGap | src/preprocessing.py:55-56 | the mean consecutive difference of a sorted sequence is its span over one less than its length |
| Statistics.AvgGapSpan | src/preprocessing.py:53-56 | `avg_gap` is 0 below two dates and otherwise (max − min)/(n − 1); it is never negative |
| Sequences.SortInts | src/preprocessing.py:55 | the result is sorted and a permutation of the input |
| Sequences.DistinctSorted | src/preprocessing.py:37 | the group-by keys are strictly increasing and are exactly the values present |
| Preprocessing.MergeLeftAt | src/preprocessing.py:71-73 | row i of the merge is static row i, back-filled from the student's dynamic row when there is one and with zeros otherwise |
| Preprocessing.PrepareInferenceDataSpec | src/use.py:9-21 | one row per distinct student, in static order; each row carries its static row's ten attributes, with missing numbers as 0; a student with no dynamic row has all seven dynamic fields 0; otherwise all seven are those of the dynamic row, with an undefined spread as 0 |
| Preprocessing.FeatureCount | src/use.py:12-19 | the feature table has one row per distinct student of the log |
| Preprocessing.EmptyIffNoRows | src/use.py:34-36 | the feature table is empty iff the log has no rows, whatever the cutoff |
| Preprocessing.InnerJoinKeepsAll | src/preprocessing.py:77 | when every student has a label, the inner join drops no row and attaches each student's own label |
| Preprocessing.TrainingMatchesInference | src/preprocessing.py:63-79 | the training table without its label column is the inference table; each row's label is that student's `label_dropout` value |
| Ranking.Paired | backend/app.py:179 | `zip` pairs up to the shorter input; entry i pairs id i with probability i |
| Ranking.PairResults | backend/app.py:178-183 | the append loop builds exactly the `zip` pairing |
| Ranking.SortDesc | backend/app.py:186 | the result is in non-increasing probability order and is a permutation of the input |
| Ranking.SortDescStable | backend/app.py:186 | the sort is stable: entries of equal probability keep their relative order |
| Ranking.RankedPairs | backend/app.py:179-186 | with one probability per id, the ranking has one entry per id, is non-increasing, and holds exactly the pairs (id i, probability i) |
| Ranking.RankedFeatures | backend/app.py:166-195 | with one probability per feature row, the ranking has one entry per row, each student with their own probability, highest first |
| Service.CutoffArg | backend/app.py:146 | no `cutoff` argument means no cutoff; the decimal text of any integer gives that cutoff; unreadable text falls back to no cutoff (`Service.UnreadableCutoffIsNone`) |
| Service.UnreadableCutoffIsNone | backend/app.py:146 | the empty text, a lone sign, or a text with any non-digit after its optional sign gives no cutoff |
| Service.Rank | backend/app.py:166-196 | the success response carries the cutoff, the ranked pairs, and their count as `total_students` |
| Service.PredictCsv | backend/app.py:112-208 | in order: no model gives 500; no `file` part gives 400; an empty file name gives 400; a name not ending in `.csv` gives 400; a CSV without a `date` column gives the 500 of the failed lookup in `load_raw`; an empty feature table gives 400; otherwise the ranked predictions |
| Service.CsvEmptyIffNoRows | backend/app.py:159-164 | the upload's empty-table 400 happens iff the CSV has no data rows |
| Service.PredictBatch | backend/app.py:211-288 | no model gives 500; a null body or one without `data` gives 400; a `data` list in which no record has a `date` key (the empty list among them) gives the 500 of the failed `date` lookup; an empty feature table gives 400; otherwise the ranked predictions |
| Service.BatchEmptyCheckUnreachable | backend/app.py:247-256 | a `data` list that gets past the `date` lookup always yields a non-empty feature table |
| Report.TierOf | src/use.py:63-71 | the three tiers partition the probabilities: critical iff p > 0.75, watch list iff 0.45 < p ≤ 0.75, safe iff p ≤ 0.45 |
| Report.TierMonotone | src/use.py:66-71 | a higher probability never gets a less severe tier |
| Report.Status | src/use.py:66-71 | definition: the printed status of each tier; properties in `Report.StatusNamesTier` |
| Report.StatusNamesTier | src/use.py:66-71 | the three printed statuses are pairwise different, so a status line names exactly one tier |
| Report.Classify | src/use.py:63-72 | one report line per ranked row, in ranked order, each with the student's id and the printed status of its probability's tier |
| Report.PredictDropout | src/use.py:23-72 | a missing model stops the run; an empty feature table stops it before any prediction; a probability count that differs from the row count fails; otherwise the results are the ranked pairs and every student gets exactly one status line, that of their tier |
| Report.ReportCoversEveryStudent | src/use.py:40-55 | the results have one entry per distinct student of the log, each with their own probability, in non-increasing order |
| Scenario.ScenarioLabels | src/preprocessing.py:9-13 | for the two-student log the labels are {101: 0, 202: 1} |
| Scenario.SingleDayStats | src/preprocessing.py:39-58 | a student active on one day with c clicks has total c, mean c, an undefined spread, and no trend and no gap |
| Scenario.RisingStudent | src/preprocessing.py:37-58 | days 1, 2, 3 with 10, 20, 30 clicks give 3 active days, a total of 60, a trend of 10 and a gap of 1 |
| Scenario.EndToEndScenario | src/preprocessing.py:9-61 | the two-student log's labels, and each student's dynamic row, with no cutoff |

## Left out

- Reading files, the Flask routing, JSON rendering, the temporary upload file and its clean-up, and all console output are not modelled. The CSV and JSON inputs arrive as sequences of rows, and the report is the list of its lines.
- `train.py` is not part of this model. Neither is the model itself (training, `joblib` loading and prediction), which is an opaque parameter.
- A model loading failure is a `None` model. Of the exceptions a handler turns into a 500, only the missing `date` column is modelled: a CSV whose header lacks it (`Service.Upload.hasDateColumn`), and a `data` list in which no record has a `date` key. A malformed CSV, a missing column other than `date` and a failing `predict` are not modelled.
- PredictDropout (Report.PredictDropout): the command-line tool does not catch exceptions, so the crash of its `load_raw` on a CSV without a `date` column (src/use.py:32) is not modelled: the tool takes the log as already loaded rows, which always have a date cell.
- StudentStats (Preprocessing.StudentStats): `std_clicks` is modelled by the sample variance (`varClicks`), without the square root, because there is no real square root here. Its definedness, sign and zero cases agree with the standard deviation's.
- Floating point is not modelled. Clicks and days are integers, and means, slopes and gaps are exact reals.
- ParseInt (Loader.ParseInt): only optionally signed decimal integers are read. Forms that `pandas.to_numeric` would also accept ("12.5", "1e2", "inf", surrounding blanks) become day 0 here, where pandas keeps a number. `Loader.NonNumericDateIsDayZero` is stated only for texts that pandas also rejects.
- CutoffArg (Service.CutoffArg): the integer parser is the one used for dates. Blanks and underscores, which `int()` accepts, are not modelled.
- PredictBatch (Service.PredictBatch): only JSON objects are modelled as bodies. The cutoff is an integer or absent. A non-integer cutoff, a `data` value that is not a list of records, and other non-object bodies are not modelled.
- PredictDropout (Report.PredictDropout): `sort_values` (default quicksort) does not promise an order for equal probabilities. The model fixes the stable order as one admissible outcome; `Report.ReportCoversEveryStudent` states only the order by probability and the membership, which hold for every admissible outcome.
- The categorical re-tagging (`astype("category")`) does not change any value and is modelled as the identity.
- `id_student` and `sum_click` are taken to be present in every row. A missing click count would still make its day active with 0 clicks (`groupby().sum()` skips it); a missing id would keep a static row but get no dynamic row and no label, so the inner join would drop it and `Preprocessing.TrainingMatchesInference` would not apply to such a log.
- Missing values in the text attribute columns are not modelled. The numeric attributes `num_of_prev_attempts` and `studied_credits` may be missing and are back-filled with 0.
- The dynamic table is keyed by student (a map), so its row order is not modelled. Only its keys and values matter to the merge that consumes it, and the label table is keyed the same way.
- Integer overflow of pandas' int64 columns is not modelled; integers are unbounded.
