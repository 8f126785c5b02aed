# Agriculture pipeline: title cleaning, subplot layout, frame filters and the hypothesis comparator

This project is a Dafny model of the small pure core of an agricultural
data pipeline. The pipeline joins field-survey tables and weather-station
readings, plots them, and compares field measurements with station
measurements by two-sample t-tests. The model covers four parts:

- **Title cleaning** (`clean_name`, `clean_titles_dictionary`). A column name
  becomes a display title in three steps. A name ending in `_C` has every `_C`
  rewritten to ` (C)`. Every underscore then becomes a space. Finally Python's
  `str.title()` fixes the letter case. The model proves four facts. No
  underscore survives. The casing rule of `str.title` holds. Cleaning is
  idempotent. The `_C` rewrite reaches inner occurrences too
  (`Max_Cost_C` becomes `Max (C)Ost (C)`).
- **Subplot layout** (`count_rows`). The number of rows is a ceiling division
  written with Python's floor division `//`.
- **Frame filters** (`filter_field_data` and `filter_weather_data`, both in the
  helper module and in the analysis script). A DataFrame is a set of column
  labels and a sequence of rows. A boolean mask selects rows in their original
  order. An absent column raises `KeyError`.
- **Hypothesis comparator** (`print_ttest_results`, `hypothesis_results`). The
  comparator visits every distinct `Weather_station` value once, in order of
  first appearance. For each station it gives one verdict per requested
  measurement, in list order. The null hypothesis is rejected exactly when
  the p-value is strictly below `alpha`. The t-test is a parameter of the model.
- **Rename tables** (`columns_to_rename`, `values_to_rename`). The column table
  is a swap, so a simultaneous rename with it undoes itself. The value table
  has no key among its values, so exact-match replacement with it is idempotent.

Modules: `Wrappers` (result types), `Text` (ASCII letters, `str.replace`,
`str.title`), `Cells` and `Frames` (cells, rows, masks, `unique()`), `Titles`,
`TitleExamples`, `Layout` and `Filters` (the helper module), `Hypothesis` (the
analysis script's comparator) and `Config` (the rename tables).

Two behaviours of the code that the model keeps as they are:

- The weather sample is always the station's `Temperature` readings, whatever
  measurement is being compared: `filter_weather_data` takes a `measurement`
  argument and never reads it (`Hypothesis.WeatherSampleIsTemperature`).
- There is no separate "untestable" outcome. Samples too small to test give
  a NaN p-value, and `NaN < alpha` is false in Python, so the verdict is "not
  rejected". The model's `PValue` has a `NaN` case, and `Decide` sends it to
  `NotRejected`.

## Model

| member | source | states |
|---|---|---|
| Titles.CleanName | helper_functions.py:23-26 | the cleaned title contains no `_` for any input, and its letters follow the `str.title` rule: a letter is upper-case exactly when it is first or follows a non-letter |
| Titles.CleanNamePlain | helper_functions.py:24-26 | a name not ending in `_C` gets no ` (C)` rewrite: the result has the name's length and equals the name, with `_` turned into space, up to letter case |
| Titles.CleanNameCelsius | helper_functions.py:24-26 | a name ending in `_C` yields a title ending in ` (C)`, longer than the name; before the ending, the title is the rest of the name with its own `_C` rewritten to ` (C)` and underscores as spaces, letter for letter up to case |
| Titles.CleanNameCelsiusPrefix | helper_functions.py:24-26 | `x + "_C"` cleans to a title four characters longer than `x` with its `_C` rewritten, agreeing with that text, underscores as spaces, at every position up to letter case |
| Titles.CleanNameCelsiusPlain | helper_functions.py:24-26 | when `x` holds no `_C`, `x + "_C"` cleans to `x` with underscores as spaces, up to letter case, followed by ` (C)`; with the casing rule of `Titles.CleanName` this makes `Min_temperature_C` into `Min Temperature (C)` |
| Titles.CelsiusSuffix | helper_functions.py:24-25 | rewriting `_C` in a name that ends in `_C` leaves text ending in ` (C)`, at least two characters longer |
| Titles.CelsiusRewriteComplete | helper_functions.py:25 | after the rewrite no `_C` remains anywhere in the text, not only at the end |
| Titles.CleanNameIdempotent | helper_functions.py:23-26 | cleaning an already cleaned name returns it unchanged |
| TitleExamples.CelsiusRewriteExample | helper_functions.py:25 | `Max_Cost_C` has both of its `_C` rewritten, giving `Max (C)ost (C)` |
| TitleExamples.TitleExample | helper_functions.py:26 | title-casing `Max (C)ost (C)` upper-cases the `o` after the parenthesis |
| TitleExamples.SpacedExample | helper_functions.py:26 | `Max (C)ost (C)` has no underscore, so the second step leaves it unchanged |
| TitleExamples.CleanNameRewritesInnerCelsius | helper_functions.py:23-26 | `Max_Cost_C` cleans to `Max (C)Ost (C)`: the inner `_C` is rewritten as well |
| TitleExamples.CleanNameKeepsInnerCelsius | helper_functions.py:23-26 | `Max_Cost` does not end in `_C`, so its `_C` is not rewritten and it cleans to `Max Cost` |
| TitleExamples.SpacedPlainExample | helper_functions.py:26 | the underscore of `Max_Cost` becomes a space, giving `Max Cost` |
| TitleExamples.TitlePlainExample | helper_functions.py:26 | `Max Cost` is already title-cased and title-casing leaves it unchanged |
| Text.ReplaceAll | helper_functions.py:25-26 | Python's `str.replace`: a left-to-right scan rewriting non-overlapping occurrences. `Text.ReplaceSplit` and `Text.ReplaceAbsent` fix it on every text for a pattern whose first character does not recur in it (`HeadUnique`), such as `_C`, and `Text.ReplaceCharPointwise` fixes it for one-character patterns such as `_` |
| Text.ReplaceSplit | helper_functions.py:25 | for a pattern whose first character does not recur in it (`HeadUnique`), such as `_C`, the text before an occurrence, the replacement and the text after it are rewritten independently |
| Text.ReplaceAfterPlain | helper_functions.py:25 | `str.replace` copies a leading stretch that cannot start the pattern and continues the scan after it |
| Text.ReplaceOne | helper_functions.py:26 | one occurrence between two stretches that cannot start the pattern is the only text rewritten |
| Text.ReplaceTwo | helper_functions.py:25 | with an occurrence inside and one at the end, both are rewritten and nothing else changes |
| Text.ReplaceCharPointwise | helper_functions.py:26 | replacing `_` by a space rewrites exactly the underscores and keeps the length |
| Text.ReplaceAbsent | helper_functions.py:26 | `str.replace` of a pattern that does not occur returns the text unchanged |
| Text.TitleFrom | helper_functions.py:26 | `str.title` keeps length and letter-ness, copies non-letters, and makes a letter upper-case exactly when the character before it is not a letter |
| Text.TitleCharacterized | helper_functions.py:26 | `str.title` of a text is the one string that differs from it only in letter case and obeys the casing rule |
| Text.TitleKeepsCelsius | helper_functions.py:26 | title-casing keeps a ` (C)` ending, because the `C` follows a parenthesis |
| Text.TitleIdempotent | helper_functions.py:26 | title-casing a title-cased text changes nothing |
| Titles.CleanTitlesDictionary | helper_functions.py:28-32 | the call fails exactly when some value is neither text nor the one kept number. Otherwise the keys are unchanged, every text value is replaced by its cleaned form, and the kept number is copied |
| Titles.CleanTitlesFixedPoint | helper_functions.py:28-32 | cleaning an already cleaned titles dictionary returns it unchanged |
| Layout.FloorDiv | helper_functions.py:35 | Python's `//` rounds the quotient toward negative infinity, for either sign of the divisor |
| Layout.CountRows | helper_functions.py:34-36 | the call fails exactly when there are zero columns. For `n >= 0` panels and `c > 0` columns, the row count `r` satisfies `r*c >= n` and `(r-1)*c < n` |
| Layout.CountRowsIsLeast | helper_functions.py:34-36 | no smaller row count holds all panels: the result is the ceiling of `n / c` |
| Layout.CountRowsDefault | helper_functions.py:34-36 | with the default two columns, `n` panels need `(n + 1) / 2` rows |
| Cells.Matches | helper_functions.py:13 | pandas' element-wise `==` in a mask: equal cells, and NaN equals nothing, not even NaN |
| Frames.FirstAbsent | helper_functions.py:13 | the label named by the `KeyError` of a combined mask `(df[a] == x) & (df[b] == y)`: none exactly when every label read is present, otherwise a read label the frame lacks, the left one first |
| Frames.Column | helper_functions.py:13 | the Series projection `[...]['Value']`: one cell per row, the `i`-th being row `i`'s cell in that column |
| Frames.Select | helper_functions.py:10 | a row is kept exactly when the mask holds for it, and each kept row appears as often as in the input |
| Frames.SelectConcat | helper_functions.py:10 | selection distributes over concatenation, so kept rows keep their original order |
| Frames.SelectIdempotent | helper_functions.py:10 | filtering a filtered frame with the same mask changes nothing |
| Frames.Where | helper_functions.py:10 | a mask that reads an absent column raises `KeyError` for such a column; otherwise the frame keeps its columns and its selected rows |
| Frames.ColumnOfSelect | main.py:12 | the column of the selected rows holds exactly the column values of the rows that pass the mask |
| Filters.FilterFieldData | helper_functions.py:9-10 | `KeyError` exactly when the column is absent. Otherwise the result has the same columns and its rows are the selection of the rows whose column equals the filter value: each such row as often as in the input, no other row, in the original order (with `Frames.SelectConcat`). NaN equals nothing |
| Filters.FieldFilterKeepsOrder | helper_functions.py:10 | filtering two runs of rows gives the kept rows of the first run followed by the kept rows of the second |
| Filters.TemperatureAt | helper_functions.py:13 | the weather mask holds exactly for rows of the station whose `Measurement` is `Temperature` |
| Filters.FilterWeatherData | helper_functions.py:12-13 | `KeyError` exactly when one of `Weather_station_ID`, `Measurement`, `Value` is absent, naming them in that order: `Weather_station_ID` first, then `Measurement`, then `Value`. Otherwise the result is the `Value` column of the rows that are this station's `Temperature` rows, in row order |
| Filters.WeatherSampleValues | helper_functions.py:13 | a successful weather sample has one value per `Temperature` row of the station, and its values are exactly those rows' `Value` cells |
| Filters.WeatherSampleKeepsOrder | helper_functions.py:12-13 | the weather sample of two runs of rows is the first run's sample followed by the second's |
| Filters.WeatherFilterIgnoresMeasurement | helper_functions.py:12-13 | the result is the same for every `measurement` argument |
| Hypothesis.FilterFieldData | main.py:11-12 | `KeyError` for `Weather_station` first and then for the measurement column. Otherwise the result is the measurement column of the station's rows, in row order |
| Hypothesis.FieldSampleValues | main.py:12 | a successful field sample has one value per row of the station, and its values are exactly the measurement cells of those rows |
| Hypothesis.FieldSampleKeepsOrder | main.py:11-12 | the field sample of two runs of rows is the first run's sample followed by the second's, so row order is kept |
| Hypothesis.WeatherSampleIsTemperature | main.py:14-15 | for any requested measurement, the weather sample equals the `Temperature` sample, and each of its values comes from a `Temperature` row of that station |
| Hypothesis.Decide | main.py:23-27 | rejected exactly when the p-value is a number strictly below `alpha`. A p-value equal to `alpha`, or NaN, is not rejected |
| Hypothesis.DecideMonotone | main.py:24 | a rejection at one threshold stays a rejection at every larger threshold |
| Hypothesis.DefaultAlphaBoundary | main.py:24-29 | at the default threshold 0.05 a p-value of exactly 0.05 is not rejected, and every smaller p-value is |
| Hypothesis.Compare | main.py:35-43 | one station and one measurement fail exactly when the weather frame lacks one of the three columns its filter reads, or the field frame lacks the station column or the measurement column |
| Hypothesis.CompareVerdict | main.py:35-43 | when nothing is missing, the verdict names the station and the measurement, carries the test's p-value on (weather sample, field sample), and rejects exactly when that p-value is a number below alpha |
| Hypothesis.StationVerdicts | main.py:33-43 | one verdict per requested measurement, in list order. The loop fails exactly when some requested measurement cannot be compared |
| Hypothesis.Blocks | main.py:30-43 | one block per station, in the given order. With no station nothing can fail; otherwise it fails exactly when some measurement cannot be compared |
| Frames.FirstIndex | main.py:30 | the index returned holds the value, and no earlier index does |
| Frames.Unique | main.py:30 | `unique()` returns each value of the column exactly once, ordered by first appearance |
| Hypothesis.Stations | main.py:30 | the stations visited are exactly the distinct `Weather_station` values, without repetition, in order of first appearance |
| Hypothesis.HypothesisResults | main.py:29-43 | fails exactly when `Weather_station` is absent, or there is a station and a needed weather column or requested field column is absent. Otherwise block `i` belongs to the `i`-th distinct station and holds one verdict per measurement in list order; verdict `j` of block `i` is what comparing that station and measurement gives, and it is rejected exactly when its p-value is below `alpha` |
| Hypothesis.VerdictPValues | main.py:33-43 | in a completed run, every p-value is the test applied to that station's weather sample and field sample for that measurement, and the verdict rejects exactly when that p-value is a number below `alpha` |
| Hypothesis.VerdictCountUniform | main.py:30-43 | blocks that each hold `w` verdicts hold `|blocks| * w` verdicts in all |
| Hypothesis.VerdictTotal | main.py:29-43 | a completed run gives exactly (distinct stations) × (measurements) verdicts |
| Config.RenameColumns | main.py:60 | renaming keeps the number of labels, and each label's new name depends only on that label and the table, so the labels are renamed simultaneously |
| Config.SwapRenameSelfInverse | main.py:60 | a rename table that exchanges labels in pairs undoes itself when applied twice |
| Config.ColumnsToRenameSelfInverse | main.py:60 | renaming twice with `columns_to_rename` (the `Annual_yield`/`Crop_type` swap) restores the original labels |
| Config.ReplaceValues | main.py:61 | exact-match replacement changes only text cells equal to a key, each to that key's value. Every other cell stays as it was |
| Config.ReplaceValuesIdempotent | main.py:61 | when no key is also a value, replacing twice equals replacing once |
| Config.ValuesToRenameDisjoint | main.py:61 | no corrected crop name in `values_to_rename` is itself a key |
| Config.ValuesToRenameIdempotent | main.py:61 | correcting crop names twice with `values_to_rename` equals correcting once |

## Left out

- `create_subplots` and all plotting functions: they only build chart objects.
- The t-test (`run_ttest`, `scipy.stats.ttest_ind`). It is a foreign numeric routine. It is the parameter `test` of `Hypothesis.HypothesisResults` and returns a real p-value or NaN; it never fails. An exception raised by the test itself, such as on samples holding text cells, is not modelled: there the script raises where the model gives a verdict, so the "fails exactly when" of `Hypothesis.Compare` and `Hypothesis.HypothesisResults` covers missing columns only. Its t statistic is not used by the comparator and is not modelled.
- Console output. The verdict text, the 50-dash separator, the station header and the `:.5f` p-value formatting are modelled as `Verdict` and `StationBlock` values, not as text.
- Hypothesis.HypothesisResults: a `KeyError` can only be raised while the first station is processed, because whether a comparison fails does not depend on the station (`Hypothesis.Blocks`). The dash line, that station's header and the verdicts of the measurements before the failing one are printed first; the model returns only the error. The model's `test` never fails, and an exception from the test is not modelled.
- The regular-expression table at main.py:45-49. The extraction code that applies it is not part of this model.
- The processors the script drives, and the script's top-level run at main.py:67-87: database and web I/O. The code that applies the rename tables is not part of this model either. `Config` models the renames with pandas' meaning: a simultaneous column relabelling, and exact-match value replacement.
- Text: only ASCII letters are cased. Python's `str.title` also cases non-ASCII letters; the model copies them unchanged and treats them as non-letters, so an ASCII letter after one is upper-cased: Python gives `"Éa"` for `"éa".title()`, the model gives `"éA"`.
- Text.ReplaceAll requires a non-empty pattern. Python's empty-pattern `str.replace` is never used by the source.
- Titles.CleanTitlesDictionary: the kept value is compared as the exact decimal `0.5779643636557995`, not as the nearest 64-bit float. The dictionary is returned as a new map, not mutated in place. A failure names no key: Python's error depends on dictionary order.
- Cells: pandas dtypes are not modelled. A cell is text, a number or NaN. Text never equals a number, and NaN equals nothing.
