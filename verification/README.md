# College Scorecard ROI pipeline — a Dafny model

This project models the table-shaping core of three pandas scripts. Together
they estimate the return on investment (ROI) of US college programmes from
the College Scorecard data.

- `Scripts/01_preprocess.py` reads the field-of-study file and prepares it:
  - keeps twelve columns and coerces six of them to numbers;
  - derives four ratios (earnings to debt, debt to income, payback years,
    monthly payment as a percentage of monthly earnings);
  - keeps the programmes with a ratio, at least ten graduates and earnings
    between 10 000 and 500 000;
  - adds five labels: credential name, two-digit CIP family, major field,
    ROI category and affordability.
- `Scripts/02_analysis.py` prepares and ranks the processed table:
  - renames four columns, relabels two institution types and drops the
    redundant columns;
  - reduces the numeric features by the variance-inflation-factor (VIF)
    loop `reduce_vif`;
  - scores every programme by earnings over debt;
  - summarises the scores per major field and keeps the seven best and the
    seven worst fields.
- `Scripts/03_fairness.py` joins and summarises:
  - builds an institution-name to OPEID6 map and gives every programme its
    institution id;
  - cleans the institution file to one row per id and merges tuition and the
    share of women onto the programmes;
  - selects the rows the plots draw;
  - summarises per institution.

A table is a `Frames.Table`: an ordered list of distinct column names and a
sequence of rows, each row a map from every column name to a `Cells.Cell`.
A cell is one of:

- `Missing`, pandas' NaN;
- `Num(x)`, a finite number held as an exact real;
- `PosInf` or `NegInf`, what a division by zero gives;
- `Text(s)`.

Steps that pandas performs on a new frame are functions over these values.
Steps the scripts perform in place are methods of the class
`DataFrames.DataFrame`. These are the column loop and assignments of
`01_preprocess.py` and the `dropna`/`drop_duplicates`/`astype` steps with
`inplace=True` of `03_fairness.py`. Each method is proved against the
function that states its effect.

The model takes three things as parameters:

- `parse: string -> Option<real>` stands for the number grammar of
  `pd.to_numeric`.
- `vif: (Table, nat) -> Vif` stands for the factor that `statsmodels` computes
  for column `i`.
- `median: seq<Cell> -> Cell` stands for the median of a group's scores.

## Model

| member | source | states |
|---|---|---|
| Cells.OverZero | Scripts/01_preprocess.py:82-84 | x/0 is missing exactly when x is 0, +inf exactly when x is positive and -inf exactly when x is negative |
| Cells.Div | Scripts/01_preprocess.py:82-86 | the quotient is numeric; it is missing when either side is missing, the exact quotient for a non-zero finite divisor, and x/0 as above for a zero divisor |
| Cells.Scale | Scripts/01_preprocess.py:86 | scaling by a positive constant multiplies finite values and leaves missing values and both infinities as they are |
| Cells.BetweenExact | Scripts/01_preprocess.py:100 | `between(lo, hi)` holds exactly for finite values with lo ≤ x ≤ hi, both ends included; NaN and the infinities fail |
| Cells.Trunc | Scripts/03_fairness.py:48 | `astype(int)` truncates toward zero: the result is the integer next to x on the side of zero |
| Schema.FosColumnsShape | Scripts/01_preprocess.py:37-50 | the twelve kept columns hold every input the later steps read and none of the nine columns they add |
| Schema.FeatureListsShape | Scripts/02_analysis.py:78-86 | the seven features and the six descriptive columns are each distinct, disjoint, and MAJOR_FIELD is a descriptor |
| Frames.Project | Scripts/01_preprocess.py:52 | selecting a column list fails exactly when a listed column is absent and reports exactly those absent columns; otherwise the result has exactly the listed columns in listed order, the same number of rows and the same cells |
| Frames.WithColumn | Scripts/01_preprocess.py:82 | a column assignment overwrites an existing column in place or appends a new one on the right, and keeps the row count |
| Frames.WithColumnRows | Scripts/01_preprocess.py:82-86 | row i of the assigned frame is row i with the new cell; every other cell is unchanged |
| Frames.KeepExact | Scripts/01_preprocess.py:99-100 | a boolean mask keeps exactly the rows satisfying it, each as often as it occurs, as an order-preserving subsequence |
| Frames.KeepAt | Scripts/01_preprocess.py:99-100 | element k of a mask's result is the element at the k-th position the mask selects |
| Frames.PositionsExact | Scripts/01_preprocess.py:99-100 | the selected positions ascend and name exactly the elements satisfying the mask |
| Frames.KeepIdempotent | Scripts/01_preprocess.py:99-100 | applying the same mask twice equals applying it once |
| Frames.KeepNoDup | Scripts/02_analysis.py:56-68 | a filter of a list of distinct names keeps it distinct, so the drop leaves distinct columns |
| Frames.SubseqTrans | Scripts/01_preprocess.py:98-100 | a subsequence of a subsequence is a subsequence, so chained filters keep the original order |
| Frames.DropNaExact | Scripts/01_preprocess.py:98 | `dropna(subset=...)` keeps exactly the rows whose listed cells are all present, each as often as it occurs, in order |
| Frames.DedupUnique | Scripts/03_fairness.py:58 | after `drop_duplicates(subset=[key])` every key occurs once |
| Frames.DedupSubseq | Scripts/03_fairness.py:58 | the de-duplicated rows are an order-preserving subsequence |
| Frames.DedupKeepsFirst | Scripts/03_fairness.py:58 | every kept row is the first row carrying its key (`keep='first'`) |
| Frames.DedupKeepsEveryKey | Scripts/03_fairness.py:58 | the first row of every key is kept |
| Frames.DropColumns | Scripts/02_analysis.py:56-68 | `drop(columns=..., errors="ignore")` keeps exactly the columns not listed, in order, skips absent names and leaves the cells alone |
| Frames.Rename | Scripts/02_analysis.py:32-37 | renaming maps each column to its new name in place and carries every cell across |
| Frames.LeftMerge | Scripts/03_fairness.py:46 | a left merge yields the left columns followed by the right columns other than the key |
| Frames.MergeUnique | Scripts/03_fairness.py:46 | against a right table with unique keys, a left merge keeps every left row exactly once and in order, joined with its match or filled with missing cells |
| Frames.GroupKeysExact | Scripts/02_analysis.py:149 | the group keys are distinct and are exactly the present key values that occur |
| Frames.CastInt | Scripts/03_fairness.py:48 | `astype(int)` fails exactly when some cell of the column is not a finite number; otherwise each row gets its truncated value |
| Frames.CastCompleteErr | Scripts/03_fairness.py:47-48 | after dropping missing ids the cast fails exactly when some id is present but not a finite number |
| Frames.CastCompleteMembers | Scripts/03_fairness.py:47-48 | after dropping missing ids and casting, the rows are exactly the rows with a finite id, that id truncated; row k comes from the k-th row with a present id |
| Frames.CastIntWhole | Scripts/03_fairness.py:48 | after the cast every id is a whole number |
| DataFrames.DataFrame.constructor | Scripts/01_preprocess.py:59 | `copy()` holds exactly the given table |
| DataFrames.DataFrame.Assign | Scripts/01_preprocess.py:65-66 | `df[name] = values` makes the frame the column assignment of its old value and changes no other cell |
| DataFrames.DataFrame.DropNaInPlace | Scripts/03_fairness.py:47 | `dropna(inplace=True)` keeps exactly the complete rows, each as often as it occurs, in order, with the same columns |
| DataFrames.DataFrame.DropDuplicatesInPlace | Scripts/03_fairness.py:58 | `drop_duplicates(inplace=True)` leaves each key once, rows in their original order |
| DataFrames.DataFrame.CastIntInPlace | Scripts/03_fairness.py:57 | the cast succeeds exactly when the value-level cast does and writes its result; on failure the frame is unchanged |
| Preprocess.SelectFos | Scripts/01_preprocess.py:37-52 | the projection fails exactly when one of the twelve columns is absent (a KeyError, not a skip); otherwise it has the twelve columns in listed order and the input's cells |
| Preprocess.ToNumeric | Scripts/01_preprocess.py:66 | `to_numeric(errors='coerce')` yields a number or missing value; text becomes its parsed number, or missing when it does not parse, never an error; other cells pass through |
| Preprocess.CoerceColumnsExact | Scripts/01_preprocess.py:60-66 | after the loop, each cell of a listed column is its coerced value and every other column is untouched |
| Preprocess.CoercedIsNumeric | Scripts/01_preprocess.py:60-66 | every cell of a coerced column holds a number or a missing value |
| Preprocess.AddRoiMetricsRows | Scripts/01_preprocess.py:81-86 | each row gets its own four ratios, computed from that row alone |
| Preprocess.RoiReciprocal | Scripts/01_preprocess.py:82-83 | for finite non-zero earnings e and debt d the ROI is e/d, the debt-to-income ratio is d/e, and their product is 1 |
| Preprocess.PaybackIsDebtToIncome | Scripts/01_preprocess.py:83-84 | the payback years always equal the debt-to-income ratio |
| Preprocess.RoiPresence | Scripts/01_preprocess.py:82-86 | a missing input gives missing ratios; the ROI is missing only for 0/0; zero debt with positive earnings gives an infinite ROI, which the `dropna` keeps |
| Preprocess.PaymentPctFormula | Scripts/01_preprocess.py:85-86 | the monthly payment percentage is payment × 1200 / earnings for non-zero earnings |
| Preprocess.FilterRowsExact | Scripts/01_preprocess.py:98-100 | the three filters keep exactly the rows with an ROI, at least ten graduates and earnings in [10000, 500000], in order; running them twice or in another order gives the same rows |
| Preprocess.CredentialNameExact | Scripts/01_preprocess.py:110-120 | exactly the codes 1 to 8 get a name, the eight names are distinct, and every other code is missing |
| Preprocess.CipFamily | Scripts/01_preprocess.py:122 | the corrected rule: the family of a code 0–9999 is its two leading digits of the four-digit, zero-padded code |
| Preprocess.MajorFieldExact | Scripts/01_preprocess.py:123-139 | the major field is never missing, and it is "Other" exactly when the family is not one of the fourteen listed |
| Preprocess.CipFamilyAgreesOnFourDigits | Scripts/01_preprocess.py:122 | for codes 1000–9999 the padded family equals the unpadded two-character prefix |
| Preprocess.CipPrefixFinding | Scripts/01_preprocess.py:122-139 | code 402 (CIP 04.02) gets the prefix "40", and every labelled row with that code is Physical Sciences, while its family is "04", labelled Other |
| Preprocess.BinOfExact | Scripts/01_preprocess.py:141-147 | for increasing edges, x falls into bin i exactly when edge i ≤ x < edge i+1 (the last bin open above), and into none when below the first edge |
| Preprocess.CategoriesExact | Scripts/01_preprocess.py:141-147 | each ROI and affordability label is given exactly to the finite values in its half-open bin; negative, infinite and missing values get no label |
| Preprocess.BoundariesGoUp | Scripts/01_preprocess.py:141-147 | a boundary value goes to the upper bin (1 is "Low (1-1.5)", 8 is "Affordable (8-12%)"), and +inf and negative values are unlabelled |
| Preprocess.AddLabelsRows | Scripts/01_preprocess.py:120-147 | each row gets its five labels computed from that row alone; the family is the first two characters of the unpadded code |
| Preprocess.AddLabelsColumns | Scripts/01_preprocess.py:120-147 | the five labels are appended on the right, in assignment order |
| Preprocess.ProcessFosColumns | Scripts/01_preprocess.py:37-147 | the processed table has the twelve kept columns, then the four ratios, then the five labels |
| Preprocess.ProcessFosExact | Scripts/01_preprocess.py:81-147 | the processed rows are the admissible rows with ratios, in order, each labelled with the unpadded code prefix; there are no more of them than input rows |
| Preprocess.ProcessedRowsAdmissible | Scripts/01_preprocess.py:98-139 | every processed row passes the filter, and its family and major field are those of the first two characters of its unpadded code |
| Preprocess.WorkedRow | Scripts/01_preprocess.py:82-147 | earnings 40000, debt 20000 and payment 200 give ROI 2 ("Average"), 0.5 payback years and 6% ("Very Affordable") |
| Preprocess.CoerceInPlace | Scripts/01_preprocess.py:65-66 | the in-place loop over the six numeric columns leaves the frame equal to the coerced table |
| Preprocess.AddRoiMetricsInPlace | Scripts/01_preprocess.py:82-86 | the four in-place assignments leave the frame equal to the table with its ratios |
| Preprocess.AddLabelsInPlace | Scripts/01_preprocess.py:120-147 | the five in-place assignments leave the frame equal to the labelled table |
| Preprocess.Preprocess | Scripts/01_preprocess.py:37-147 | the script fails exactly when a kept column is missing, reporting the absent ones; otherwise its result is the processed table of the projection |
| Multicollinearity.Factors | Scripts/02_analysis.py:101 | one factor per remaining column, the i-th being the factor of column i |
| Multicollinearity.MaxOf | Scripts/02_analysis.py:102 | `max(vif)` is one of the factors and no factor exceeds it |
| Multicollinearity.DropChoiceExact | Scripts/02_analysis.py:102-106 | a pass drops a column exactly when some factor exceeds the threshold, and then the leftmost column holding the maximum (`vif.index`) |
| Multicollinearity.DropAtExact | Scripts/02_analysis.py:106 | dropping column k removes exactly that column and keeps every other cell |
| Multicollinearity.ReduceBound | Scripts/02_analysis.py:96-108 | on return at least one column remains and no factor of the final pass exceeds the threshold |
| Multicollinearity.ReduceKeepsRows | Scripts/02_analysis.py:87-108 | the returned columns are an order-preserving subsequence of the input columns, and the rows and their cells are unchanged |
| Multicollinearity.ReduceVif | Scripts/02_analysis.py:96-108 | the while loop returns the reduction defined pass by pass, failing on an empty column list as `max([])` does |
| Ranking.BeatsTotal | Scripts/02_analysis.py:154-155 | the ranking order is strict and total on ranked values |
| Ranking.BestExact | Scripts/02_analysis.py:154-155 | the chosen entry is ranked, none beats it, and it beats every earlier ranked entry (ties go to the first); nothing is chosen only when nothing is ranked |
| Ranking.TakeBestStep | Scripts/02_analysis.py:154-155 | taking k entries takes the best entry and then k-1 from the rest |
| Ranking.TakeBestDrawn | Scripts/02_analysis.py:154-155 | at most k entries are taken, each a ranked entry of the input |
| Ranking.TakeBestDistinct | Scripts/02_analysis.py:154-155 | the selection of distinct fields has distinct fields |
| Ranking.TakeBestOrdered | Scripts/02_analysis.py:154-155 | the selection is ordered best first |
| Ranking.TakeBestMaximal | Scripts/02_analysis.py:154-155 | no ranked entry left out beats a selected one, and fewer than k entries are selected only when every ranked entry is |
| Analysis.RenameKeepsDistinct | Scripts/02_analysis.py:32-37 | when no new name is already taken, renaming keeps the column names distinct |
| Analysis.RenamedMembers | Scripts/02_analysis.py:32-37 | a column is present after renaming exactly when some old column is renamed to it |
| Analysis.RenameExact | Scripts/02_analysis.py:32-37 | the four old names are gone, each new name is present exactly when its old name was, and every other column is present exactly when it was |
| Analysis.ControlLabelExact | Scripts/02_analysis.py:40-43 | only "Private, nonprofit" and "Private, for-profit" change, and relabelling twice equals relabelling once |
| Analysis.RelabelExact | Scripts/02_analysis.py:40-43 | `replace` changes only the institution-type column, and there only the two listed values |
| Analysis.CleanFieldsExact | Scripts/02_analysis.py:32-68 | renaming, relabelling and dropping fail exactly when CONTROL is absent; otherwise the columns are the renamed ones minus the redundant ones, in order |
| Analysis.VifInput | Scripts/02_analysis.py:78-87 | the feature frame fails exactly when a feature is absent; otherwise it has the seven features and only complete rows |
| Analysis.ReducedFrame | Scripts/02_analysis.py:115-117 | the reduced frame fails exactly when a kept feature or a descriptor is absent; otherwise it has exactly those columns and every row |
| Analysis.FirstText | Scripts/02_analysis.py:137-139 | the index of the first row whose earnings or debt is not numeric |
| Analysis.AddScoreExact | Scripts/02_analysis.py:137-139 | the score fails exactly on a missing input column or a text cell; otherwise each row gets earnings over debt |
| Analysis.Strip | Scripts/02_analysis.py:144 | `str.strip()` leaves no white space at either end |
| Analysis.StripExact | Scripts/02_analysis.py:144 | the stripped text is the slice of the input after its leading white space, and everything outside it is white space |
| Analysis.StripUnspaced | Scripts/02_analysis.py:144 | text with no white space at either end is unchanged by stripping |
| Analysis.SpacedCapitalsAreOther | Scripts/02_analysis.py:144 | " OTHER\t" counts as "other" |
| Analysis.OtherMeansDefault | Scripts/02_analysis.py:143-145 | a major field counts as "other" exactly when it is the default label "Other" |
| Analysis.LabelsNotOther | Scripts/01_preprocess.py:123-138 | none of the fourteen field names counts as "other" |
| Analysis.ScoredRowsExact | Scripts/02_analysis.py:143-148 | the summarised rows are exactly the rows that are not "other" and have a score, each as often as it occurs, in order |
| Analysis.AggregateExact | Scripts/02_analysis.py:147-151 | one summary per present field that occurs, distinct; each counts its group's rows (at least one) and holds the median of their scores |
| Analysis.MajorStatsExact | Scripts/02_analysis.py:143-152 | every kept summary has at least twenty rows and a present field that is not "other", its count is the size of that field's group of scored rows, and the fields are distinct |
| Analysis.DistinctKept | Scripts/02_analysis.py:152 | the size filter keeps the fields distinct |
| Analysis.TopAndBottomSound | Scripts/02_analysis.py:154-155 | each list holds at most seven distinct large fields with a ranked median, best first, and no field left out has a better median than one in it |
| Analysis.Analyze | Scripts/02_analysis.py:32-155 | when the script gets to the end, both lists hold at most seven distinct fields, each with at least twenty programmes and none "other" |
| Fairness.ProcessedIsReady | Scripts/03_fairness.py:46 | the processed columns name the institution and hold none of the columns the merges add |
| Fairness.IdMap | Scripts/03_fairness.py:43-44 | building the id map fails exactly when INSTNM or OPEID6 is absent |
| Fairness.IdMapExact | Scripts/03_fairness.py:43-44 | the map has one row per name and no missing cell; it finds a name exactly when the name's first row has an id, and then gives that id |
| Fairness.IdMapMembers | Scripts/03_fairness.py:44 | the map's rows are exactly the de-duplicated rows with both cells present |
| Fairness.IdMapUnique | Scripts/03_fairness.py:44 | every name occurs once in the map |
| Fairness.KeptFirstId | Scripts/03_fairness.py:44 | a kept row carries the id of the first row of its name, so a name whose first row has no id is lost |
| Fairness.IdOfKind | Scripts/03_fairness.py:43-46 | the id given to a name is missing or the id of some raw row |
| Fairness.WithIds | Scripts/03_fairness.py:46 | the merge on the name adds OPEID6 on the right |
| Fairness.MergeIdsExact | Scripts/03_fairness.py:46 | the merge keeps every programme once and in order, adding the id of its name, or missing |
| Fairness.Enhanced | Scripts/03_fairness.py:46-48 | on success the programmes carry OPEID6 on the right and none of the institution columns, ready for the second merge |
| Fairness.EnhanceWithIds | Scripts/03_fairness.py:46-48 | the in-place `dropna` and `astype(int)` give the value-level result |
| Fairness.EnhancedErr | Scripts/03_fairness.py:47-48 | the cast fails exactly when some programme's looked-up id is present but not a finite number |
| Fairness.EnhancedTotal | Scripts/03_fairness.py:47-48 | when every raw id is a finite number or missing, the cast succeeds |
| Fairness.EnhancedMembers | Scripts/03_fairness.py:46-48 | the remaining programmes are exactly those whose name has a finite id, each with that id truncated; row k comes from the k-th programme whose name has an id |
| Fairness.EnhancedWhole | Scripts/03_fairness.py:48 | every remaining id is a whole number |
| Fairness.InstitutionIdsErr | Scripts/03_fairness.py:52-57 | cleaning fails exactly on a missing column or on an id that is present but not a finite number |
| Fairness.InstitutionIdsMembers | Scripts/03_fairness.py:52-57 | the cleaned rows are exactly the raw rows with a finite id, each with a truncated id and coerced tuition and women share; row k comes from the k-th raw row with an id |
| Fairness.CoercedRow | Scripts/03_fairness.py:54-55 | the coercion keeps each row's id and coerces its other two cells |
| Fairness.InstitutionsExact | Scripts/03_fairness.py:58 | after de-duplication every id occurs once; each row is the first of its id and the first row of every id is kept, in order |
| Fairness.CleanInstitutions | Scripts/03_fairness.py:52-58 | the in-place cleaning gives the value-level institution table |
| Fairness.WithInstitutions | Scripts/03_fairness.py:63 | the merge on the id adds tuition and the women share on the right |
| Fairness.MergeInstitutionsExact | Scripts/03_fairness.py:63 | the merge keeps every programme once and in order, adding the tuition and women share of its id's institution, or missing cells |
| Fairness.Merged | Scripts/03_fairness.py:41-63 | the merged table has the processed columns, then OPEID6, TUITIONFEE_IN and UGDS_WOMEN |
| Fairness.MergeScorecard | Scripts/03_fairness.py:41-63 | the script's steps up to `df_merged` give the value-level merged table |
| Fairness.InstitutionsNumeric | Scripts/03_fairness.py:54-55 | the cleaned tuition and women share are numbers or missing, never text |
| Fairness.MergedNumeric | Scripts/03_fairness.py:63-76 | in the merged table tuition and the women share are never text, so the comparison `> 0` is defined on every row |
| Fairness.TuitionPlotExact | Scripts/03_fairness.py:75-76 | a row is plotted exactly when it has the y column and a tuition that is a positive number or +inf; plotted rows keep their order and occur as often as in the input |
| Fairness.SampleSize | Scripts/03_fairness.py:80 | the sample size is at most the available rows and at most 5000, and equals one of them |
| Fairness.BoxPlotExact | Scripts/03_fairness.py:115 | a row is in the box plot exactly when it has an institution type and median earnings, as often as it occurs and in order |
| Schools.CountZero | Scripts/03_fairness.py:134 | no finite value is counted exactly when there is none |
| Schools.SumWithin | Scripts/03_fairness.py:134 | a sum of finite values within [lo, hi] lies within count·lo and count·hi |
| Schools.Mean | Scripts/03_fairness.py:134 | the mean is missing exactly when both infinities occur or no number or infinity occurs; it is +inf (-inf) exactly when only that infinity occurs |
| Schools.MeanWithin | Scripts/03_fairness.py:134 | a finite mean lies within any bounds of the finite values |
| Schools.FirstPresent | Scripts/03_fairness.py:135 | `first` gives the first present cell, missing only when all are missing |
| Schools.SchoolsExact | Scripts/03_fairness.py:133-136 | one summary per present institution name, distinct; each counts its group's rows (at least one) |
| Schools.KeepDistinct | Scripts/03_fairness.py:137-138 | the filters keep the names distinct |
| Schools.SchoolSummaryExact | Scripts/03_fairness.py:133-138 | the summary keeps exactly the groups with every aggregate present and at least five programmes |
| Schools.ExtendedWithinBasic | Scripts/03_fairness.py:153-159 | every school of the extended summary is also in the basic summary with the same ROI mean, women share and count |
| Schools.SummaryWomenFirst | Scripts/03_fairness.py:135 | a summary's women share is the group's first present UGDS_WOMEN cell |
| Schools.SummaryMeansWithin | Scripts/03_fairness.py:134 | when a column's finite values lie within [lo, hi], so do the finite means of every summary |

## Left out

- Downloading, reading and writing CSV files, and creating directories, are I/O. A loaded CSV file is a `Table` parameter.
- Plots, `print`, `describe`, `info` and the missing-value report are presentation and diagnostics. The model keeps only the rows the plots draw.
- The correlations at `Scripts/03_fairness.py:92`, `112`, `150` and `172` are floating-point statistics that feed no later step.
- The VIF regression, the median and the grammar of `pd.to_numeric` are parameters. The parse parameter returns finite numbers only, so text such as "inf" never becomes an infinity.
- Random sampling (`sample(random_state=42)`) is left out. Only the sample size is modelled.
- Floating-point rounding is left out: numbers are exact reals, and only the missing, infinite and finite cases of IEEE division are kept.
- Numbers above 2^63 are not cast: `astype(int)` overflow is not modelled.
- Group-by output order is left out. pandas sorts the group keys; the model lists them in order of first appearance. The per-group summaries do not depend on that order.
- Analysis.TopAndBottom: when several fields tie on the median at the seventh place, `nlargest`/`nsmallest` with keep='first' keep the field whose name sorts first, because the groups come in sorted key order. The model keeps the field that appears first in the data. `Analysis.TopAndBottomSound` holds for either choice.
- The order of the box-plot categories is presentation.
- Merge suffixes are left out. The merges are modelled for frames whose non-key columns are disjoint, which holds for the scripts' frames.
- `read_csv(usecols=...)` keeps the file's column order, which the model does not track. The id map is projected in listed order.
- Lower-casing affects ASCII letters only, which covers the labels compared.
- Division with a text operand is left out. The ratios are computed after coercion, and the score reports a text input as an error where pandas would raise.
- Schools.Mean: skips text cells where pandas would raise. The averaged columns are numeric after the merge.
- Fairness.TuitionPlotExact: treats a text tuition as not positive where pandas would raise. Fairness.MergedNumeric proves the merged tuition is never text.
- Ranking.TakeBestDrawn: states membership in the input, not a multiset inclusion.
- A zero debt with positive earnings gives +inf, which `dropna` keeps. The earnings range check includes both ends. The CIP family column is the first two characters of the unpadded code, as `Scripts/01_preprocess.py:122` computes it (see Findings).

## Findings

| source | as written | input that shows it | evidently intended | confidence | as-written member | corrected member |
|---|---|---|---|---|---|---|
| Scripts/01_preprocess.py:122 | the family is the first two characters of the unpadded code read as an integer | CIPCODE 402 (CIP 04.02) gives "40", which maps to "Physical Sciences" | the two-digit family of the zero-padded four-digit code, "04", which maps to "Other" | not executed | Preprocess.CipPrefixFinding | Preprocess.CipFamily |
