# LittleCoders course-listing analysis: the cleaning and tallying layer

`Analysis/analysis.py` loads a spreadsheet of coding-course listings. Each
listing has a course name, an age group, a features list, a duration, a
registration fee, a course fee, a payment method and a delivery method. The
script cleans the table and then charts six insights. This project models the
deterministic layer under the charts and proves what it computes:

- **Age groups.** `transform_age_group` turns `"N+"` into `"N-"` and re-renders
  `"A-B"` canonically. Missing stays missing. Malformed text raises. Two
  regular expressions then extract Min_Age and Max_Age from the result.
- **Row cleaning.** The outlier rows at positions 0, 9 and 13 are dropped and
  the rest renumbered from 1. Durations and fees are coerced to numbers.
  `"NA"` cells become missing. Missing fees become 0, and only strictly
  positive fees feed the fee statistics.
- **Tallies.** The `Features` cells are split on `", "` and counted into a
  frequency table, most frequent first. Its first 12 rows and its rows of
  count 1 are selected. The same value count is used for delivery and
  payment methods.

Modules, one per concern:

| file | module | models |
|---|---|---|
| `wrappers.dfy` | `Wrappers` | `Option`, `Result`, the exceptions raised (`ValueError`, `TypeError`, `KeyError`), and the spreadsheet `Cell` (missing, text or integer) |
| `strings.dfy` | `Strings` | `int()` on decimal text, `f"{n}"`, `str.strip`, `str.replace(c, '')`, `str.split(sep)` and `sep.join` |
| `age_groups.dfy` | `AgeGroups` | `transform_age_group` and the Min_Age / Max_Age extraction |
| `tally.dfy` | `Tally` | `value_counts()` (a loop over a count map, then a stable sort by descending count), `head(n)`, selecting rows by count |
| `cleaning.dfy` | `Cleaning` | the course row, `drop([0, 9, 13])`, the table `df_cleaned` as a class updated in place, and the fee columns |
| `features.dfy` | `Features` | the feature split, the feature insight, and the delivery and payment counts |
| `report.dfy` | `Report` | the script end to end: the cleaning, then every modelled insight read from the cleaned rows |

The table `df_cleaned` is the class `Cleaning.CourseTable`. Its fields are the
rows, the index labels and the derived columns. Each in-place step of the
script is one method, and the method's `modifies this` / `ensures` clauses give
the new state. `Cleaning.Clean` runs the steps in the script's order. Its
contract describes the whole cleaned table in terms of the loaded rows.

Two facts about the code shape the model:

- `transform_age_group` raises on a malformed age group, and that stops the
  script. The model returns `Failure(ValueError)`, or `TypeError` for a cell
  that is not a string.
- The features are split on the exact two-character separator `", "`, so
  `"a,b"` is a single feature.

## Model

| member | source | states |
|---|---|---|
| `AgeGroups.TransformAgeGroup` | Analysis/analysis.py:18-25 | a missing cell stays missing, and only a missing cell gives missing; any text it produces holds a `'-'` and has a Min_Age; a non-string cell raises TypeError; text that fails raises ValueError |
| `AgeGroups.TransformOpen` | Analysis/analysis.py:21-23 | an open-range result is text holding a `'-'` and has a Min_Age; its only failure is ValueError |
| `AgeGroups.TransformClosed` | Analysis/analysis.py:24-25 | a closed-range result is text holding a `'-'` and has a Min_Age; its only failure is ValueError |
| `AgeGroups.TransformOpenRange` | Analysis/analysis.py:21-23 | text holding `'+'` becomes the decimal rendering of the integer left after removing every `'+'`, then `"-"`; it raises ValueError when no integer is left |
| `AgeGroups.ParseIgnoresStrip` | Analysis/analysis.py:22 | the `.strip()` before `int()` does not change the parsed value |
| `AgeGroups.TransformClosedRange` | Analysis/analysis.py:24-25 | text without `'+'` succeeds iff it splits on `'-'` into exactly two parseable pieces; then the result is `"A-B"` with `A`, `B` natural numbers in canonical decimal |
| `AgeGroups.PiecesAreNatural` | Analysis/analysis.py:24 | pieces of a split on `'-'` never parse to a negative number |
| `AgeGroups.RangeIsFixedPoint` | Analysis/analysis.py:24-25 | a rendered `"A-B"` transforms to itself |
| `AgeGroups.TransformIdempotentOnRanges` | Analysis/analysis.py:24-25 | transforming a range output a second time leaves it unchanged |
| `AgeGroups.OpenFormIsRejected` | Analysis/analysis.py:21-25 | an open-form output `"N-"` is not accepted again: transforming it raises ValueError |
| `AgeGroups.MinAge` | Analysis/analysis.py:44 | Min_Age is missing exactly when the text has no digit; otherwise it is the value of the digit run that starts at the first digit |
| `AgeGroups.RangeSearch` | Analysis/analysis.py:45 | a match of `(\d+)\+?-(\d+)` is found iff the pattern matches at some digit; the reported match is the leftmost one, as with `re.search` |
| `AgeGroups.MaxAge` | Analysis/analysis.py:45 | Max_Age is missing exactly when Min_Age is, because it falls back to Min_Age |
| `AgeGroups.RangeHasAges` | Analysis/analysis.py:44-45 | on `"A-B"`, Min_Age is `A` and Max_Age is `B` |
| `AgeGroups.OpenHasAges` | Analysis/analysis.py:44-45 | on `"N-"`, the range pattern fails and Min_Age and Max_Age both equal `abs(N)` |
| `AgeGroups.AgesOfClosedRange` | Analysis/analysis.py:44-45 | for a transformed closed range, Min_Age and Max_Age are the two parsed pieces of the original text |
| `AgeGroups.AgesOfOpenRange` | Analysis/analysis.py:44-45 | for a transformed `"N+"`, Min_Age and Max_Age are both `abs(N)` |
| `AgeGroups.MinAgeOf` | Analysis/analysis.py:44 | `.str.extract` on a cell that is not text gives a missing Min_Age |
| `AgeGroups.MaxAgeOf` | Analysis/analysis.py:45 | a cell's Max_Age is missing exactly when its Min_Age is |
| `Strings.ParseInt` | Analysis/analysis.py:22 | a successful parse needs a digit in the text, and text without `'-'` never parses to a negative number |
| `Strings.ParseIntSpells` | Analysis/analysis.py:22-24 | `int(s)` gives `n` exactly when the stripped text is an optional sign, leading zeros, then the canonical digits of `abs(n)` (a `'-'` only for `n <= 0`) |
| `Strings.ParseIntRaises` | Analysis/analysis.py:22-24 | `int(s)` raises exactly when the stripped text spells no integer |
| `Strings.DigitsAsShown` | Analysis/analysis.py:22-24 | every run of digits is leading zeros followed by the canonical rendering of its value |
| `Strings.ShowNat` | Analysis/analysis.py:23 | the rendering is non-empty digits with no leading zero that read back as the number |
| `Strings.ShowInt` | Analysis/analysis.py:23-25 | `f"{n}"` starts with `'-'` exactly for a negative `n`, followed by the canonical digits of `abs(n)` |
| `Strings.ParseShowInt` | Analysis/analysis.py:22-25 | parsing the rendering of an integer gives the integer back |
| `Strings.Strip` | Analysis/analysis.py:22 | the result is the contiguous middle of the input, with only white space before and after it and none at its own ends; text without surrounding white space is left as it is |
| `Strings.RemoveAll` | Analysis/analysis.py:22 | no `'+'` remains, every other character keeps its number of occurrences, and text without `'+'` is unchanged |
| `Strings.RemoveAllAppend` | Analysis/analysis.py:22 | the removal distributes over concatenation, so the remaining characters keep their order |
| `Strings.Split` | Analysis/analysis.py:24 | the pieces never contain the separator and, joined with it, give back the input |
| `Strings.SplitCharFirst` | Analysis/analysis.py:24 | splitting on a character cuts at its first occurrence |
| `Tally.ValueCounts` | Analysis/analysis.py:100 | one row per distinct value, each count is the value's number of occurrences, every value has a row, counts do not increase down the table, and they add up to the number of values |
| `Tally.CountValues` | Analysis/analysis.py:100 | the counting pass gives one row per distinct value, each with its number of occurrences, and every value has a row |
| `Tally.SortByCount` | Analysis/analysis.py:100 | the ordering pass returns a permutation of the rows, ordered by non-increasing count, with the values still distinct |
| `Tally.TotalOfValueCounts` | Analysis/analysis.py:100 | the counts of a table with one correct row per value add up to the number of values counted |
| `Tally.InsertKeepsOrder` | Analysis/analysis.py:100 | inserting a row by count keeps the table ordered by non-increasing count |
| `Tally.InsertKeepsDistinct` | Analysis/analysis.py:100 | inserting a row for a new value keeps the values distinct |
| `Tally.Head` | Analysis/analysis.py:104 | `head(n)` is the prefix of the first `min(n, k)` rows |
| `Tally.HeadHoldsTheLargest` | Analysis/analysis.py:104 | on an ordered table, no row left out of the head has a larger count than a row in it |
| `Tally.WithCount` | Analysis/analysis.py:123 | every selected row has the given count, every row with that count is selected, and only rows of the table are selected |
| `Tally.CountOneIsTail` | Analysis/analysis.py:123 | in a table ordered by count, the rows of count 1 form exactly its tail |
| `Tally.UniqueAreSingletons` | Analysis/analysis.py:123 | the rows of count 1 are exactly the values occurring once |
| `Features.FeaturePieces` | Analysis/analysis.py:98 | no piece contains the separator `", "` |
| `Features.FeaturePiecesAppend` | Analysis/analysis.py:98 | the pieces of a table are the pieces of its rows, in row order |
| `Features.FeaturePiecesSkipNonText` | Analysis/analysis.py:98 | missing and numeric cells contribute no pieces |
| `Features.FeaturePiecesOfCell` | Analysis/analysis.py:98 | the pieces of one cell rejoin with `", "` into the cell |
| `Features.FeatureInsight` | Analysis/analysis.py:98-123 | the feature table is a value-count table of the pieces whose counts sum to the number of pieces; the top list is its first `min(12, k)` rows and outranks the rest; the unique list is its tail of count-1 rows, exactly the features occurring once |
| `Features.Present` | Analysis/analysis.py:245 | missing cells are left out and every other cell keeps its number of occurrences |
| `Features.DeliveryCounts` | Analysis/analysis.py:245 | a value-count table of the non-missing delivery methods, each count taken over the whole column |
| `Features.PaymentCounts` | Analysis/analysis.py:284 | a value-count table of the non-missing payment methods, each count taken over the whole column |
| `Cleaning.DropOutliers` | Analysis/analysis.py:11 | raises KeyError iff the table has fewer than 14 rows; otherwise keeps `n - 3` rows, the `k`-th being the row at original position `KeptPosition(k)` |
| `Cleaning.KeptPositionsAreTheRest` | Analysis/analysis.py:11 | the kept positions are strictly increasing and cover every position except 0, 9 and 13 |
| `Cleaning.CourseTable.constructor` | Analysis/analysis.py:11 | `df_cleaned` starts with the kept rows and their labels, and no derived columns yet |
| `Cleaning.CourseTable.ResetIndex` | Analysis/analysis.py:14 | the labels become `0..n-1` and nothing else changes |
| `Cleaning.CourseTable.ShiftIndex` | Analysis/analysis.py:15 | every label grows by `k` and nothing else changes |
| `Cleaning.TransformColumn` | Analysis/analysis.py:27 | succeeds iff every age group transforms; then only the age groups change, each to its transform; otherwise the error is that of the first failing row |
| `Cleaning.CourseTable.TransformAgeGroups` | Analysis/analysis.py:27 | the age-group column is replaced by its transform, or, when a row raises, the table is left unchanged and the error returned |
| `Cleaning.ToNumeric` | Analysis/analysis.py:30-32 | the result is never text; numbers are kept |
| `Cleaning.CourseTable.CoerceNumeric` | Analysis/analysis.py:30-32 | duration and both fees are coerced in every row; nothing else changes |
| `Cleaning.ReplaceNA` | Analysis/analysis.py:35 | the result is never `"NA"`, and every other cell is unchanged |
| `Cleaning.ReplaceNAKeepsClean` | Analysis/analysis.py:35 | a row without `"NA"` is left as it is |
| `Cleaning.CourseTable.ReplaceMissingMarkers` | Analysis/analysis.py:35 | afterwards no cell of any row is `"NA"`, and each row is the replacement of its old self |
| `Cleaning.CourseTable.ExtractAges` | Analysis/analysis.py:44-45 | Min_Age and Max_Age are computed for every row from its age group |
| `Cleaning.CourseTable.NumberCourses` | Analysis/analysis.py:59 | every course number is its row label plus one |
| `Cleaning.CourseTable.FillMissingFees` | Analysis/analysis.py:152-153 | every row gets numeric fees, missing ones set to 0 |
| `Cleaning.FillZeroColumn` | Analysis/analysis.py:152-153 | no fee is missing afterwards; present fees are kept and every other cell becomes 0 |
| `Cleaning.PositiveFees` | Analysis/analysis.py:176-177 | every selected fee is strictly positive |
| `Cleaning.PositiveFeesAppend` | Analysis/analysis.py:176-177 | the selection keeps the column order: it distributes over concatenation |
| `Cleaning.PositiveFeesCount` | Analysis/analysis.py:176-177 | every positive fee is kept exactly as often as it occurs, and nothing else is kept |
| `Cleaning.FillZeroKeepsPositiveFees` | Analysis/analysis.py:152-177 | filling missing fees with 0 and then keeping the positive ones gives the positive fees of the unfilled column |
| `Cleaning.FilledFeeColumns` | Analysis/analysis.py:152-177 | the row-wise fill of `FillMissingFees` is the column-wise fill of each fee column, and it leaves both positive-fee selections unchanged |
| `Report.ComputeInsights` | Analysis/analysis.py:98-284 | the feature table, its top 12 rows, its count-1 rows (exactly the features occurring once), both positive-fee selections and the delivery and payment counts, all read from the given courses |
| `Report.Analyse` | Analysis/analysis.py:11-284 | fewer than 14 rows raise KeyError, and an age-group error is that of the first kept row whose transform fails; otherwise the insights are read from the `n - 3` cleaned rows, each the cleaned form of its kept original row |
| `Cleaning.Clean` | Analysis/analysis.py:11-59 | fewer than 14 rows raise KeyError; otherwise the cleaned table has `n - 3` rows labelled `1..n-3` and numbered `2..n-2`, each the cleaned form of its kept original row, with Min_Age and Max_Age of its age group; an age-group error is that of the first kept row whose transform fails |

## Left out

- Loading the spreadsheet with `pd.read_excel` (line 8) is file I/O. The model starts from the loaded rows.
- All plotting, chart labels and `plt.show` (lines 66-117, 136-143, 156-173, 211-240, 248-278, 291-346) are user-interface code.
- The `print` calls and the unused `columns_to_display` list are not modelled.
- Floating-point statistics are not modelled: `describe`, `mean`, `mode`, `quantile`, `max`/`min` of the fees, the hourly rate `Course fee / Duration` (lines 133 and 314) and the competitor rate `50000 / 40` (line 320).
- `astype(float)`: ages and fees are whole numbers (`int`), and spreadsheet cells hold integers instead of floats.
- `Cleaning.ToNumeric`: text that spells a number is not converted. Every text cell becomes missing, which is what `errors='coerce'` does to non-numeric text.
- The second coercion of Duration (line 202) is not modelled. It applies the same `ToNumeric` to a column that is already numeric.
- Thousands-separator formatting (lines 182-193), `pd.merge` (line 262) and `pd.concat` (line 331) are library presentation code.
- `Strings.ParseInt`: models Python's `int()` only for ASCII decimal digits with an optional sign and the white space of `str.isspace()`. Underscores between digits and non-ASCII digits are not modelled.
- `AgeGroups.MinAge` and `AgeGroups.RangeSearch`: `\d` is read as an ASCII digit. Python's `\d` on a `str` also matches other Unicode decimal digits.
- `Tally.ValueCounts`: ties between equal counts are ordered by first appearance. pandas does not promise a tie order, so only the non-increasing order of counts is proved.
- `Cleaning.CourseTable.TransformAgeGroups`: when `transform_age_group` raises, the script stops. The model returns the error instead, and `Cleaning.Clean` stops there.
- `Strings.ParseInt` and `Strings.ShowInt`: Python refuses to convert between `int` and decimal text of more than 4300 digits and raises ValueError. The model has no such limit, so this error path is not modelled.
- `AgeGroups.MinAgeOf` and `Features.FeaturePieces`: `.str.extract` and `.str.split` raise AttributeError on a column that holds no string at all, for example when every kept age group is missing. The model then gives missing ages or no pieces, and `Cleaning.Clean` succeeds. This error path is not modelled.
- `Strings.Split`: requires a non-empty separator (Python raises on an empty one). The source only splits on `"-"` and `", "`.
