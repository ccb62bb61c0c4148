# Telco churn data-preparation helpers, modelled in Dafny

This project models the data-preparation helpers of a telecom customer-churn
project. These helpers run over a pandas DataFrame before a model is trained.
They cover three areas:

- **Outlier handling** (`packages/outlier_handling.py`). Gaussian and IQR
  boundary rules, a skewness threshold that labels each feature normal or
  skewed, strict tail counting with percentages, the outlier summary, and the
  four-stage trim/cap pipeline that keeps an optional target aligned with the
  surviving rows.
- **Imputation** (`packages/imputation_handling.py`, and the copy of
  `impute_total_charges` in `packages/telco_project.py`). Keyword placeholders
  become missing cells, missing cells are filled from constants or from
  another column of the same row, and two "no service" placeholders collapse
  to "No".
- **Checkers** (`packages/checker.py`). Per column, they count distinct
  values, missing cells, and cells equal to placeholder keywords.

A table is modelled as a row index plus named columns of equal length (see
`frames.dfy`). A column is either numeric (`seq<Option<real>>`) or
categorical (`seq<Option<string>>`), and `None` stands for NaN. Python
exceptions are the `Failure` side of a `Result`. A DataFrame that a helper
updates in place is the `Frames.DataFrame` class.

pandas computes the column statistics: mean, standard deviation, skewness
and quantiles. In the model they are the fields of an `Estimator`, and a NaN
statistic is `None`. `Sound(est)` holds what every real estimator satisfies:
std >= 0 and q25 <= q75. A few results depend on it, and those say so.

Files:

| file | module | models |
|---|---|---|
| frames.dfy | `Frames` | tables, column lookup and assignment, row selection, the pandas counts (`isna().sum()`, `nunique()`, `== k`, `> u`, `< l`), percentages, the `DataFrame` object |
| outlier_handling.dfy | `OutlierHandling` | `packages/outlier_handling.py` |
| imputation_handling.dfy | `ImputationHandling` | `packages/imputation_handling.py` |
| checker.dfy | `Checker` | `packages/checker.py` |
| telco_project.dfy | `TelcoProject` | `impute_total_charges` of `packages/telco_project.py` |

Notes on `trim_cap_outliers`:

- It runs normal-trim, normal-cap, skewed-trim and skewed-cap in that order.
  Each stage fits its boundaries on the table as that stage receives it
  (`OutlierHandling.Remediate`, `OutlierHandling.RemediateSettles`).
- The caller's `fold` only affects the bucketing. Trimming and capping use
  the fixed folds 3 (Gaussian) and 1.5 (IQR).
- A given target is not checked against the data's length; it is only
  realigned to the surviving labels after each trim. When its labels match
  the data's, they still match at the end
  (`OutlierHandling.RemediateKeepsAlignment`).

## Model

| member | source | states |
|---|---|---|
| OutlierHandling.FindNormalBoundaries | packages/outlier_handling.py:13-36 | KeyError for an absent column. An object column gives NaN boundaries when no cell is present and TypeError otherwise. A numeric column gives upper − mean = mean − lower = 3·std; the boundaries are NaN exactly when mean or std is, and lower ≤ mean ≤ upper under a sound estimator |
| OutlierHandling.FindSkewedBoundaries | packages/outlier_handling.py:39-67 | Same errors and NaN case as the Gaussian rule. A numeric column gives upper − q75 = q25 − lower = IQR·fold, NaN exactly when a quartile is NaN. With a sound estimator and fold ≥ 0: lower ≤ q25 ≤ q75 ≤ upper |
| OutlierHandling.ObjectStatistic | packages/outlier_handling.py:33-34 | pandas statistics of an object column succeed, as NaN, exactly when no cell is present; otherwise TypeError |
| OutlierHandling.ClassifyEdges | packages/outlier_handling.py:91-95 | a skew of exactly ±0.5 or NaN is skewed; 0 is normal |
| OutlierHandling.Classify | packages/outlier_handling.py:91-95 | a feature is normal iff its skew is present and strictly inside (−0.5, 0.5) |
| OutlierHandling.FeaturesOf | packages/outlier_handling.py:85 | every listed feature is a numeric column of the table, with that column's values |
| OutlierHandling.FeaturesOfOne | packages/outlier_handling.py:85 | a single column gives its own feature when it is numeric and nothing otherwise |
| OutlierHandling.FeaturesOfConcat | packages/outlier_handling.py:85 | the features of two runs of columns are those of the first run followed by those of the second. With FeaturesOfOne this fixes the list: each numeric column once, in column order, as `data.skew()` returns them |
| OutlierHandling.FeaturesOfComplete | packages/outlier_handling.py:85 | every numeric column is listed, so `data.skew()` misses none |
| OutlierHandling.CheckDist | packages/outlier_handling.py:70-97 | one record per feature of `NumericFeatures`, at the same position, holding that column's skewness; FeaturesOfOne and FeaturesOfConcat make that list each numeric column once, in column order. The record is normal iff −0.5 < skew < 0.5 strictly |
| OutlierHandling.NumericFeaturesDistinct | packages/outlier_handling.py:85-88 | the features `check_dist` lists have distinct names, because the table's column names are distinct |
| OutlierHandling.OutlierInfoMeaning | packages/outlier_handling.py:140-150 | Boundaries: normal ones for a normal feature, IQR ones with the caller's fold otherwise. The right tail is the number of cells strictly above upper and the left tail those strictly below lower, so a cell on a boundary is not counted; NaN boundaries count nothing. tot = right + left, tot_pct = right_pct + left_pct = tot/rows·100. Under a sound estimator tot ≤ rows and tot_pct ≤ 100 |
| OutlierHandling.OutlierInfo | packages/outlier_handling.py:140-150 | the record names its feature; tot = right + left; NaN boundaries count no outlier and give 0 %; neither tail exceeds the column length |
| OutlierHandling.OutlierTable | packages/outlier_handling.py:100-164 | ValueError iff fold ∉ {1.5, 3}. With a valid fold, ZeroDivisionError iff there are numeric features but no rows. Otherwise one record per classified feature, in the same order, with the boundaries chosen by its distribution |
| OutlierHandling.CheckOutlier | packages/outlier_handling.py:117-164 | the fold check and the appending loop build exactly `OutlierTable` |
| OutlierHandling.JoinOnDistinct | packages/outlier_handling.py:189 | merging on distinct feature names pairs each `check_dist` row with the outlier record at the same position, and with no other |
| OutlierHandling.OutlierSummary | packages/outlier_handling.py:167-192 | fails exactly when `check_outlier` fails. Otherwise: one row per `check_dist` row with its feature, skew and dist, and for every outlier record with the same feature name, that record's totals (the merge on `feats`) |
| OutlierHandling.Select | packages/outlier_handling.py:228-251 | a feature is listed iff it has the given distribution and its tot_outlier_pct lies in the band (< 5, or in [5, 15)) |
| OutlierHandling.Exclude | packages/outlier_handling.py:254-257 | keeps exactly the listed names that are not exceptions |
| OutlierHandling.PlanFollowsDecide | packages/outlier_handling.py:228-257 | each feature is in the bucket of its distribution and of the action of the decision table (trim < 5, cap in [5, 15)), and in no other. Exception features and features at ≥ 15 % are in no bucket |
| OutlierHandling.PlanDisjoint | packages/outlier_handling.py:228-257 | no feature is in two of the four buckets |
| OutlierHandling.MakePlan | packages/outlier_handling.py:228-257 | every bucketed name is a summary feature and is not an exception |
| OutlierHandling.KeptRows | packages/outlier_handling.py:261-270 | the kept row positions are increasing and in range, and a row is kept iff every listed column's cell is missing or within the boundaries fitted on that column |
| OutlierHandling.TrimRows | packages/outlier_handling.py:260-270 | trimming keeps validity, column names and kinds, never adds rows, and keeps only labels already present |
| OutlierHandling.TrimSettles | packages/outlier_handling.py:261-270 | after a trim, every cell of a listed column lies within the boundaries fitted before the trim |
| OutlierHandling.TrimKeepsSettled | packages/outlier_handling.py:289-301 | a later trim only drops rows, so a column already within some boundaries stays within them |
| OutlierHandling.CapValues | packages/outlier_handling.py:276-287 | capping keeps the index, names, kinds and validity |
| OutlierHandling.ClampCellMeaning | packages/outlier_handling.py:276-287 | a missing or in-bounds cell is kept, a cell above upper becomes upper and one below lower becomes lower; with lower ≤ upper the result is within bounds |
| OutlierHandling.CapValuesContent | packages/outlier_handling.py:276-287 | a capped listed numeric column has the same length and holds each original cell clamped to the boundaries fitted on that column |
| OutlierHandling.CapSettles | packages/outlier_handling.py:276-287 | with a sound estimator, every cell of a capped column lies within the boundaries fitted on it |
| OutlierHandling.CapKeepsOthers | packages/outlier_handling.py:306-317 | capping leaves an unlisted column unchanged |
| OutlierHandling.TrimStage | packages/outlier_handling.py:260 | a trim stage runs only when its list is non-empty; it keeps names and kinds and only drops rows |
| OutlierHandling.CapStage | packages/outlier_handling.py:276 | a cap stage runs only when its list is non-empty; it keeps the index, names and kinds |
| OutlierHandling.Remediate | packages/outlier_handling.py:259-317 | the pipeline keeps validity, column names and kinds, never adds rows and keeps only labels already present |
| OutlierHandling.StageRows | packages/outlier_handling.py:260-270 | the positions a trim stage keeps are in range and increasing; all rows when the stage does not run |
| OutlierHandling.TrimStageRows | packages/outlier_handling.py:260-270 | a trim stage selects the rows at those positions: their labels and, in every column of either kind, their cells |
| OutlierHandling.Survivors | packages/outlier_handling.py:259-304 | the positions in the input of the rows surviving both trims are in range and increasing |
| OutlierHandling.RemediateKeepsOthers | packages/outlier_handling.py:259-317 | the final labels are the surviving rows' labels, and a column in neither cap list (an exception, a feature at ≥ 15 %, a categorical column, a trimmed one) holds exactly its original cells at the surviving rows |
| OutlierHandling.RemediateSettles | packages/outlier_handling.py:259-317 | The four stages run in source order and keep column names and kinds; rows are only dropped. Each bucket's columns end within the boundaries that its own stage fitted on the table that stage received. For the cap stages this needs a sound estimator |
| OutlierHandling.Align | packages/outlier_handling.py:274 | `drop(index.difference(data.index))` keeps exactly the target entries whose label is still in the data |
| OutlierHandling.AlignTwice | packages/outlier_handling.py:273-304 | aligning after the first trim and again after the second equals aligning once to the final labels |
| OutlierHandling.TrimKeepsAlignment | packages/outlier_handling.py:270-274 | if the target's labels match the data's, they still match after a trim and realignment, in the same order |
| OutlierHandling.RemediateKeepsAlignment | packages/outlier_handling.py:259-317 | a target aligned with the data stays aligned through all four stages |
| OutlierHandling.TargetAfter | packages/outlier_handling.py:272-304 | after a trim the target keeps exactly its entries whose label is in the final data, all taken from the original target; without a trim it is unchanged |
| OutlierHandling.TrimCapOutliers | packages/outlier_handling.py:195-322 | ValueError for a bad fold; fails iff the summary fails. Returns data with target iff a target was given. The data is `Remediate` applied to the disjoint buckets. The target is realigned to the final labels when a trim ran, and kept in label order when it started aligned |
| ImputationHandling.PrepareImputation | packages/imputation_handling.py:11-41 | ValueError if the data or the column list is missing. KeyError for the first listed column that is absent, when there is a keyword. Otherwise a copy with the same labels and names, in which exactly the listed columns are scrubbed; validity is kept |
| ImputationHandling.ReplaceKeywords | packages/imputation_handling.py:38-39 | KeyError(col) iff there is a keyword and the column is absent. Otherwise only that column changes, to its scrubbed cells; labels, names and validity are kept |
| ImputationHandling.Scrub | packages/imputation_handling.py:37-39 | a numeric column is unchanged. An object column becomes a float64 column of missing cells iff it had a present cell and every present cell was a keyword (pandas' conversion after `replace`). Otherwise it stays an object column in which no cell equals a keyword and only keyword cells changed, becoming missing |
| ImputationHandling.ScrubThenScrub | packages/imputation_handling.py:38-39 | replacing keyword by keyword in sequence equals replacing them all at once |
| ImputationHandling.ScrubIdempotent | packages/imputation_handling.py:37-39 | scrubbing a column listed twice changes nothing the second time |
| ImputationHandling.FirstMissingAt | packages/imputation_handling.py:37-39 | the KeyError names the first listed column the table lacks |
| ImputationHandling.PreparedMeaning | packages/imputation_handling.py:34-39 | An unlisted column, or a listed numeric one, is identical to the input's. A listed object column becomes all-missing float64 iff it had a present cell and all of its present cells were keywords; otherwise no cell equals a keyword and every other present cell is kept |
| ImputationHandling.FillNa | packages/imputation_handling.py:68-70 | present entries are kept and missing ones take the fill value. With a number as the fill value no cell stays missing; with NaN (`None`) the column is returned unchanged |
| ImputationHandling.ImputeNa | packages/imputation_handling.py:44-72 | KeyError / TypeError for an absent / non-numeric column. Otherwise exactly the three columns `<v>_mean`, `<v>_median` and `<v>_zero` are added or overwritten, filled with the mean, the median and 0. A NaN mean or median is accepted and leaves that column's missing cells missing. The column itself, every other column and the labels are unchanged |
| ImputationHandling.SuffixesDiffer | packages/imputation_handling.py:68-70 | the three added names differ from each other and from the variable |
| ImputationHandling.FillFrom | packages/imputation_handling.py:89 | a present TotalCharges is kept, a missing one takes the same row's MonthlyCharges, and a cell stays missing iff both were missing |
| ImputationHandling.FillTotalCharges | packages/imputation_handling.py:89 | KeyError("TotalCharges") is checked before KeyError("MonthlyCharges"). On success: same labels, names and kinds; the filled TotalCharges; every other column unchanged |
| ImputationHandling.ImputeTotalCharges | packages/imputation_handling.py:75-91 | overwrites the caller's DataFrame in place and returns that same object. On an error the frame is left as it was |
| ImputationHandling.ReplaceValue | packages/imputation_handling.py:98-99 | `replace` keeps the labels, names, kinds and validity |
| ImputationHandling.ImputeNoPhoneInternet | packages/imputation_handling.py:94-101 | the two replacements keep the labels, names, kinds and validity |
| ImputationHandling.NoPhoneInternetCells | packages/imputation_handling.py:94-101 | cell by cell, "No internet service" and "No phone service" become "No" and every other cell stays. Numeric columns and the shape are unchanged, and no placeholder remains |
| ImputationHandling.NoPhoneInternetIdempotent | packages/imputation_handling.py:94-101 | applying the function twice equals applying it once |
| Checker.SelectDtypes | packages/checker.py:33-38 | a column is selected iff its kind matches the column type; 'both' selects every column |
| Checker.SelectDtypesOne | packages/checker.py:33-38 | a single column is kept exactly when its kind is selected |
| Checker.SelectDtypesConcat | packages/checker.py:33-38 | selecting from two runs of columns selects from the first, then from the second. With SelectDtypesOne this fixes the result: each selected column once, in column order |
| Checker.CheckUnique | packages/checker.py:11-43 | ValueError iff col_type ∉ {number, object, both}. Otherwise one record per entry of `SelectDtypes`, at the same position (each selected column once, in column order, by SelectDtypesOne and SelectDtypesConcat), with num_unique = the number of distinct present values (≤ rows) and pct = num_unique/rows·100 in [0, 100]; pct is NaN iff there are no rows |
| Checker.NUniqueMeaning | packages/checker.py:38 | a value is counted by `nunique()` iff some present cell holds it |
| Checker.MissingCountZero | packages/checker.py:61 | a column's missing count is 0 iff none of its cells is missing |
| Checker.SortDescending | packages/checker.py:61 | the counts come out in non-increasing order, as a permutation of the input |
| Checker.Positive | packages/checker.py:67 | keeps only positive counts and preserves the descending order |
| Checker.PositiveMultiset | packages/checker.py:67 | every tally with a positive count is kept as often as it occurs, and no other |
| Checker.CheckMissing | packages/checker.py:46-72 | records are in non-increasing order of count, with 0 < tot_missing ≤ rows and pct = tot/rows·100 in (0, 100]. The (feature, count) pairs are exactly the positive per-column missing counts |
| Checker.CheckMissingColumns | packages/checker.py:61-67 | a column is reported iff it has a missing cell, and then with its own count |
| Checker.KeywordCount | packages/checker.py:105-108 | a keyword the column does not hold (`not in unique()`) contributes 0, so skipping it changes nothing |
| Checker.KeywordTotal | packages/checker.py:104-108 | a column holding none of the keywords totals 0, and a positive total needs a non-empty object column |
| Checker.KeywordTotalConcat | packages/checker.py:104-108 | the total adds over the keyword list, so a repeated keyword is counted once per occurrence |
| Checker.KeywordTotalBound | packages/checker.py:104-108 | with distinct keywords a column's total is at most its length |
| Checker.NonzeroOnly | packages/checker.py:119 | keeps exactly the records with a positive total |
| Checker.NonzeroOnlyConcat | packages/checker.py:119 | the filter distributes over concatenation, so the kept records stay in column order |
| Checker.AllSpecial | packages/checker.py:99-113 | one record per column, in column order, with its keyword total and pct = total/rows·100 |
| Checker.MissingSpecial | packages/checker.py:75-121 | ZeroDivisionError iff there are columns but no rows; otherwise at most one record per column, and records only when there are rows |
| Checker.SpecialRecordsFromColumns | packages/checker.py:104-119 | every reported record is some column's: its name, its positive keyword total, and pct = total/rows·100 |
| Checker.SpecialColumnsReported | packages/checker.py:104-119 | every column with a positive keyword total is reported, with that total and its share |
| Checker.SpecialBounded | packages/checker.py:104-119 | for distinct keywords on a well-formed table, no total exceeds the rows and no pct exceeds 100 |
| Checker.CheckMissingSpecial | packages/checker.py:99-121 | the nested loops, including the `continue` for absent keywords, compute exactly `MissingSpecial` |
| TelcoProject.ImputeTotalCharges | packages/telco_project.py:26-32 | same contract as the copy in the imputation helpers: the caller's frame is updated in place and returned |
| Frames.CountAboveIsCardinality | packages/outlier_handling.py:145 | the right-tail count is the number of cells strictly above the bound |
| Frames.CountBelowIsCardinality | packages/outlier_handling.py:146 | the left-tail count is the number of cells strictly below the bound |
| Frames.TailsDisjoint | packages/outlier_handling.py:145-149 | with lower ≤ upper, no cell is in both tails, so right + left ≤ rows |
| Frames.Percent | packages/outlier_handling.py:147-148 | count/rows·100 is ≥ 0, is 0 iff the count is 0, and is ≤ 100 when count ≤ rows |
| Frames.PercentAdds | packages/outlier_handling.py:150 | the tail percentages add up to the percentage of the total |
| Frames.CountEqualAbsent | packages/checker.py:105-106 | a keyword missing from `unique()` matches no cell |
| Frames.ValuesMembership | packages/checker.py:38 | `unique()` holds a value iff some present cell equals it |
| Frames.CountMissingZero | packages/checker.py:61 | `isna().sum()` is 0 iff every cell is present |
| Frames.SetColumn | packages/imputation_handling.py:68-70 | `data[name] = cells` makes `data[name]` return the new cells and leaves every other column and the labels as they were. It overwrites in place or appends at the end |
| Frames.SelectRows | packages/outlier_handling.py:260-270 | selecting rows keeps validity, names and kinds; the labels and every column's cells, numeric or not, are those at the selected positions |
| Frames.DataFrame.SetItem | packages/imputation_handling.py:89 | the in-place column assignment on the caller's object |

## Left out

- The statistics themselves (mean, standard deviation, skewness, quantile
  interpolation) are computed by pandas with floating point. They are the
  uninterpreted fields of `Estimator`. Reals stand for floats, so rounding
  is not modelled.
- `data.skew()` is taken to skip non-numeric columns, which is pandas 1.x
  behaviour. The newer pandas default, which raises TypeError on a
  non-numeric column, is not modelled.
- The internals of feature_engine's `OutlierTrimmer` and `Winsorizer`. The
  model keeps only what the calls rely on: boundaries refit on the data
  received (mean ± 3·std, or q25/q75 ∓ 1.5·IQR), rows beyond them dropped
  (missing cells ignored), cells beyond them clamped. Type checks inside
  feature_engine are not modelled.
- pandas index and merge machinery. `pd.merge` on distinct feature names is
  modelled as the record-by-record join it amounts to. `index.difference`
  and `drop` are modelled as "keep the labels still present".
- `select_dtypes` works on a two-valued column kind (numeric or
  categorical). Other dtypes, such as bool, datetime or category, are not
  modelled.
- Checker.SortDescending: pandas' `sort_values` is not stable. The contract
  states only "non-increasing and a permutation" and fixes no order among
  equal counts.
- ImputationHandling.ImputeNa: a categorical column is reported as TypeError.
  pandas would fill it and produce a mixed-type column, which the
  two-kind column model cannot represent.
- ImputationHandling.FillTotalCharges: a categorical TotalCharges or
  MonthlyCharges is reported as TypeError for the same reason.
- OutlierHandling.ObjectStatistic: an object column is taken to hold
  strings. An object column holding numbers, whose mean and quantiles pandas
  would compute, is not modelled.
- ImputationHandling.Scrub: the conversion of an all-missing object column
  to float64 is that of pandas 1.x and 2.x. Versions that keep the object
  dtype after `replace` are not modelled.
- ImputationHandling.PrepareImputation: keywords are strings, and a numeric
  column never matches one. Numeric keywords are not modelled.
- Checker.CheckMissingSpecial: keywords are strings, as above.
- `variable` in `prepare_imputation` is a list of column names. Passing a
  single string, which Python would iterate character by character, is not
  modelled.
- Tables with duplicate column names are outside the model: `Table.Valid`
  requires distinct names, and `data[col]` would then return a DataFrame.
- The target's values are carried along but never inspected. A target given
  as a DataFrame rather than a Series behaves the same under the
  label-keeping model.
- Flask routing, model loading and prediction in the backend, the Streamlit
  pages, the option lists and the plotting helpers (`kdeplot`) are I/O or
  foreign-library code with no stated behaviour to model.
