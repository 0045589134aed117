# Streamlit classroom apps: the table and text logic

This project models the deterministic logic of five small Streamlit scripts,
with the widgets, files, plots and language model taken away:

- **Country Comparison** (`StreamlitAppFinal/main.py`, module `CountryComparison`).
  A World Bank style wide table goes through these steps:
  - check for the four id columns;
  - drop incomplete rows;
  - rename the `"2000 [YR2000]"` year columns to `"2000"`;
  - melt to long form;
  - coerce Year and Value to numbers and drop the rows that fail;
  - filter by the sidebar selection.

  A display divisor and axis label are then picked from the maximum value, for
  the line chart and, separately, for the bar chart of the most recent year.
- **Custom entity patterns** (`NERStreamlitApp/main.py`, module `EntityPatterns`).
  - The `LABEL:PATTERN` loop over the lines of the text box, written as a
    method with a loop.
  - The loop that turns recognised entities into (text, label) rows.
  - The top-10 `value_counts()` table of those rows.
- **Lexicon sentiment** (`EOC2-Classwork/Week_11/week11_2-1.py`, module `Sentiment`).
  The text is lower-cased and split on whitespace, and the word weights are
  summed. The result is "positive" exactly when the sum is above zero.
- **Pick A Penguin** (`basic-streamlit-app/main.py`, module `PenguinPicker`).
  The species, sex and maximum-mass mask, then the pick of one penguin by id.
- **In-class filters** (`basic-streamlit-app/Week_4_2_streamlit_data_IN-CLASS.py`,
  module `InClassFilters`). The city filter over the four-row table and the
  salary upper-bound filter.

The shared modules hold the pieces of Python and pandas these scripts rely on:
- `Seqs`: the boolean mask `Filter`, the order-preserving sub-sequence
  relation `Subseq`, `unique()` as `Distinct`, and `max()` as `MaxOf`.
- `Text`: `str.isspace`, `strip`, `split()`, `split(" ")[0]`, `splitlines`,
  `lower` and `upper`.
- `Numbers`: `to_numeric(errors="coerce")` on plain decimal text.
- `Wrappers`: `Option` and `Result`.

A missing cell (pandas NaN) is `None`. Numbers are `real`.

Three details of the code that the model keeps as written:
- `pd.melt` emits the long table year column by year column: all rows for
  the first year, then all rows for the next. It is not grouped source row by
  source row. `CountryComparison.MeltAt` states the position of every long row
  in that order.
- On an empty filtered view, pandas' `max()` is NaN and every threshold
  comparison is false. The code therefore picks divisor 1 and the label
  "Value". `ChooseScale(None)` returns exactly that.
- A pattern line with two or more colons passes the `":" in line` test, so it
  writes no error message. Instead `label, pattern = line.split(":")` raises
  and stops the app. The model's outcome for it is `Crashed(line index)`.
- When no long row survives coercion, `df_long["Year"].min()` is NaN, and the
  year slider's `int(...)` raises before anything is drawn. The model's
  outcome for it is `Failure(EmptyLongTable)`.

## Model

| member | source | states |
|---|---|---|
| CountryComparison.Compare | StreamlitAppFinal/main.py:28-149 | The run stops with the missing-columns error exactly when one of Country Name, Country Code, Series Name, Series Code is missing. It crashes at the year slider (main.py:65) exactly when the columns are there but `df_long` is empty. Otherwise: the view is the selection filter of `df_long`; the line scale comes from the view's own maximum; the line chart is drawn exactly when the view is non-empty and a country is selected; the bar chart is the snapshot of the view, absent exactly when the view is empty. |
| CountryComparison.NoYearColumnsStops | StreamlitAppFinal/main.py:38-65 | A table with the id columns but no "YR" column melts to an empty `df_long`, so the run crashes at the year slider. |
| CountryComparison.NoCountriesNoCharts | StreamlitAppFinal/main.py:102-103 | When `df_long` is non-empty, selecting no country gives an empty view, no line chart, no bar chart, and the unscaled "Value" label. |
| CountryComparison.DropIncomplete | StreamlitAppFinal/main.py:35 | Keeps every row whose four required cells are present, every copy of it, and nothing else. Keeps row order (sub-sequence) and the column labels, and preserves rectangularity. |
| CountryComparison.RenameYearColumns | StreamlitAppFinal/main.py:38-40 | A label containing "YR" becomes its prefix up to, not including, the first space, and holds no space. Every other label is unchanged. The number of columns is unchanged. |
| CountryComparison.RenameKeepsRequired | StreamlitAppFinal/main.py:38-43 | Renaming never moves, hides or duplicates a required column. Each one keeps its position, so the melt's id columns still find their cells. |
| CountryComparison.YearColumns | StreamlitAppFinal/main.py:38 | The year-column positions are exactly the columns whose label contains "YR", in strictly increasing column order. |
| CountryComparison.Melt | StreamlitAppFinal/main.py:43 | The melted table has exactly rows × year columns entries. |
| CountryComparison.OffsetIsProduct | StreamlitAppFinal/main.py:43 | `k` blocks of `n` long rows, one block per year column, span `k·n` rows. |
| CountryComparison.MeltAt | StreamlitAppFinal/main.py:43 | Long row `k·rows + i` carries source row `i`'s country and series, the renamed label of year column `k`, and that row's cell in that column. |
| CountryComparison.MeltedTableCount | StreamlitAppFinal/main.py:35-43 | Before coercion, `df_long` has (complete rows) × (year columns) rows. |
| CountryComparison.MeltKeepsIds | StreamlitAppFinal/main.py:35-43 | When every source row has a country and a series, so does every melted row. |
| CountryComparison.Coerce | StreamlitAppFinal/main.py:46-48 | A long row survives exactly when its Year label and its Value cell both coerce. The survivor keeps its country and series and carries exactly the coerced numbers. |
| CountryComparison.CoerceAll | StreamlitAppFinal/main.py:46-48 | Coercion and `dropna` never add rows. |
| CountryComparison.CoerceAllExact | StreamlitAppFinal/main.py:46-48 | Coercion keeps exactly the rows whose Year and Value both parse, in order. Each kept row is its source row with those numbers. |
| CountryComparison.CoerceDropCount | StreamlitAppFinal/main.py:46-48 | The number of rows dropped equals the number of rows whose Year or Value fails to parse. |
| CountryComparison.LongTable | StreamlitAppFinal/main.py:35-48 | `df_long` has at most (complete rows) × (year columns) rows. |
| CountryComparison.LongTableHasIds | StreamlitAppFinal/main.py:35-48 | Every row of `df_long` has a country and a series name, because the dropna runs before the melt. |
| CountryComparison.FilterSelection | StreamlitAppFinal/main.py:72-77 | `filtered` holds exactly the long rows with a selected country, the chosen indicator, and a year in [lo, hi], in their original order. |
| CountryComparison.FilterSelectionIdempotent | StreamlitAppFinal/main.py:72-77 | Applying the same selection to `filtered` again changes nothing. |
| CountryComparison.FilterSelectionKeepsCopies | StreamlitAppFinal/main.py:72-77 | A selected row occurs in `filtered` as often as in `df_long`. An unselected row never occurs. |
| CountryComparison.ChooseScale | StreamlitAppFinal/main.py:82-95 | The result is one of (1, "Value"), (1e6, Millions), (1e9, Billions), (1e12, Trillions). The divisor is at most the maximum (or 1), and is at least every threshold the maximum reaches. An empty view (NaN maximum) gives (1, "Value"). |
| CountryComparison.ScaledMaximum | StreamlitAppFinal/main.py:84-95 | Under a divisor above 1, the scaled maximum is at least 1. Under millions or billions it is below 1000. Raw units are chosen only below a million. |
| CountryComparison.OneMillionIsMillions | StreamlitAppFinal/main.py:90-92 | Exactly 1,000,000 is shown in millions, as 1. |
| CountryComparison.RecentRows | StreamlitAppFinal/main.py:123-124 | `recent_data` holds exactly the filtered rows whose year is the latest filtered year, every copy of each, in their order in `filtered`. It is empty only when `filtered` is. |
| CountryComparison.LatestRows | StreamlitAppFinal/main.py:123-124 | Masking `filtered` with the latest year keeps exactly the rows of that year, every copy, in order, and keeps at least one. |
| CountryComparison.ScaleValues | StreamlitAppFinal/main.py:148-149 | Each scaled value times the divisor gives back the row's Value. |
| CountryComparison.Snapshot | StreamlitAppFinal/main.py:123-149 | There is no bar chart exactly when the view is empty. Otherwise its rows are `recent_data`, all of one year. Its scale is chosen from their own maximum, and its heights are the values divided by that scale. |
| Numbers.ParseNumber | StreamlitAppFinal/main.py:46-47 | Empty text does not coerce. Text that coerces holds a digit and only digits, `.`, `+` and `-`. |
| Numbers.ParseShowInt | StreamlitAppFinal/main.py:46 | The decimal text of any integer (a renamed year label such as "2000") coerces back to that integer. |
| Numbers.ParseDecimal | StreamlitAppFinal/main.py:46-47 | Digits, a point and digits (at least one digit in all) coerce to the whole part plus the fraction over its power of ten. |
| Numbers.ParseMinus | StreamlitAppFinal/main.py:46-47 | A leading `-` negates the value of the rest, and fails exactly when the rest fails. |
| Numbers.ParsePlus | StreamlitAppFinal/main.py:46-47 | A leading `+` leaves the value of the rest unchanged. |
| Numbers.OnePointFive | StreamlitAppFinal/main.py:47 | The observation "1.5" coerces to 1.5. |
| Numbers.MissingMarkerIsNotANumber | StreamlitAppFinal/main.py:47-48 | The World Bank placeholder ".." coerces to a missing value, so its row is dropped. |
| Text.FirstToken | StreamlitAppFinal/main.py:39 | `split(" ")[0]` is the longest space-free prefix. It ends at the first space or at the end of the text. |
| EntityPatterns.ParsePatterns | NERStreamlitApp/main.py:29-41 | The loop's outcome is `ParseLines` of the input's `splitlines()`. These are the records of the lines read so far, the number of error messages, or the index of the line that stopped the app. |
| EntityPatterns.ParseLines | NERStreamlitApp/main.py:32-41 | When the loop finishes, every line gave either one record or one error message. When it stops, the stopping line is one of the input lines. |
| EntityPatterns.ToPattern | NERStreamlitApp/main.py:34-39 | Both halves are stripped. The label never holds a colon, and on a one-colon line the pattern does not either. |
| EntityPatterns.ColonFreeHalves | NERStreamlitApp/main.py:34 | The text before the first colon holds no colon. On a one-colon line, neither does the text after it. |
| EntityPatterns.ParsedIsFilterThenSplit | NERStreamlitApp/main.py:32-41 | When the loop finishes, the records are exactly the non-empty lines holding a colon, in line order, each split at its colon. Every other line wrote one error message. There are never more records than lines. |
| EntityPatterns.ParsedIffOneColonEach | NERStreamlitApp/main.py:33-34 | The loop finishes exactly when every pattern line holds a single colon. |
| EntityPatterns.CrashAtFirstBadLine | NERStreamlitApp/main.py:32-34 | When the app stops, it stops at the first pattern line holding two or more colons. |
| EntityPatterns.OneColonLine | NERStreamlitApp/main.py:33-39 | A `LABEL:PATTERN` line gives one record with the label and the pattern stripped, and no error message. |
| EntityPatterns.MalformedLine | NERStreamlitApp/main.py:33-41 | An empty line, or one without a colon, gives no record and one error message. |
| EntityPatterns.TwoColonLine | NERStreamlitApp/main.py:34 | A line with two colons cannot be unpacked into two parts, and the app stops there. |
| EntityPatterns.EmptyInputNoPatterns | NERStreamlitApp/main.py:29-31 | Empty input leaves the pattern list empty, with no error message. |
| Text.SplitLines | NERStreamlitApp/main.py:32 | No line holds a line boundary. There are never more lines than characters. Only empty text has no lines. |
| Text.LastLine | NERStreamlitApp/main.py:32 | Non-empty text without a boundary is one line, itself. |
| Text.LineThenRest | NERStreamlitApp/main.py:32 | A single boundary character ends the first line; the rest of the text splits on its own. |
| Text.LineThenCrLf | NERStreamlitApp/main.py:32 | `\r\n` is one boundary: it ends the first line and opens no empty line. |
| Text.Strip | NERStreamlitApp/main.py:37-38 | The result is the contiguous slice of the input that starts after the leading whitespace. Only whitespace follows it, and it neither starts nor ends with whitespace. |
| Text.StripInside | NERStreamlitApp/main.py:37-38 | Every character of the result comes from the input. |
| Text.StripKeepsText | NERStreamlitApp/main.py:37-38 | Every non-whitespace character of the input is in the result. |
| Text.StripIdempotent | NERStreamlitApp/main.py:37-38 | Stripping a stripped label or pattern changes nothing. |
| EntityPatterns.CollectEntities | NERStreamlitApp/main.py:76-81 | One (text, label) row per entity, in entity order. |
| EntityPatterns.Tally | NERStreamlitApp/main.py:89 | One count per distinct (text, label) combination. |
| EntityPatterns.TallySpec | NERStreamlitApp/main.py:89 | Each count belongs to a combination of the rows and is its true number of occurrences. No combination is counted twice, and every combination is counted. |
| EntityPatterns.ValueCounts | NERStreamlitApp/main.py:89 | `value_counts()` has one entry per distinct (text, label) combination. |
| EntityPatterns.SortByCountDescending | NERStreamlitApp/main.py:89 | The entries are ordered by count, most frequent first. |
| EntityPatterns.ValueCountsSpec | NERStreamlitApp/main.py:89 | Each entry is a combination of the rows with its true count (at least 1). No combination is listed twice. Counts descend. Every combination of the rows has its entry. |
| EntityPatterns.Analyse | NERStreamlitApp/main.py:86-91 | "No entities found" is shown exactly when there are no rows. Otherwise the table has min(10, distinct combinations) entries, between 1 and 10. |
| EntityPatterns.AnalyseRanksCombinations | NERStreamlitApp/main.py:89 | The top-10 entries are combinations of the rows with their true counts, distinct, most frequent first. No combination left out occurs more often than one listed. |
| Sentiment.RuleBasedSentiment | EOC2-Classwork/Week_11/week11_2-1.py:4-10 | The result is "positive" or "negative". It is "positive" exactly when the summed lexicon weight of the lower-cased words is above 0. |
| Sentiment.Weight | EOC2-Classwork/Week_11/week11_2-1.py:5-9 | A word weighs between -5 and 3, and weighs 0 exactly when it is not in the lexicon. |
| Sentiment.Total | EOC2-Classwork/Week_11/week11_2-1.py:9 | The sum over `n` words lies between -5n and 3n. |
| Sentiment.Score | EOC2-Classwork/Week_11/week11_2-1.py:9 | The score of a text of `n` characters lies between -5n and 3n. |
| Sentiment.TotalAppend | EOC2-Classwork/Week_11/week11_2-1.py:9 | The weight of two word lists together is the sum of their weights. |
| Sentiment.TotalPermutation | EOC2-Classwork/Week_11/week11_2-1.py:9 | The total weight depends only on how often each word occurs, not on their order. |
| Sentiment.ReorderedWordsSameScore | EOC2-Classwork/Week_11/week11_2-1.py:9-10 | Texts whose words are the same up to order get the same score and the same verdict. |
| Sentiment.BlankIsNegative | EOC2-Classwork/Week_11/week11_2-1.py:9-10 | Empty or all-whitespace text scores 0 and is "negative". |
| Sentiment.CaseInsensitive | EOC2-Classwork/Week_11/week11_2-1.py:9-10 | A text and its upper-cased form get the same score and verdict. |
| Sentiment.NonLetterTokenWeighsZero | EOC2-Classwork/Week_11/week11_2-1.py:5-9 | A token with any character other than a lower-case letter is not in the lexicon and weighs 0. |
| Sentiment.PunctuationBlocksMatch | EOC2-Classwork/Week_11/week11_2-1.py:9-10 | "good!" is one token that misses the lexicon's "good", so the text is "negative". |
| Text.Words | EOC2-Classwork/Week_11/week11_2-1.py:9 | `split()` yields only non-empty, whitespace-free words. |
| Text.WordsSplitAtSpace | EOC2-Classwork/Week_11/week11_2-1.py:9 | A whitespace character always separates words: the text on either side splits on its own. |
| Text.WordsKeepText | EOC2-Classwork/Week_11/week11_2-1.py:9 | The words, concatenated, are exactly the non-whitespace characters of the text in order. |
| Text.WordsOfBlank | EOC2-Classwork/Week_11/week11_2-1.py:9 | Whitespace-only text splits into no words. |
| Text.SingleWord | EOC2-Classwork/Week_11/week11_2-1.py:9 | A non-empty text without whitespace is a single word. |
| Text.Lower | EOC2-Classwork/Week_11/week11_2-1.py:9 | Lower-casing keeps the length, and maps each character on its own. |
| Text.LowerOfUpper | EOC2-Classwork/Week_11/week11_2-1.py:9 | Lower-casing undoes any earlier upper-casing. |
| Text.LowerKeepsSpace | EOC2-Classwork/Week_11/week11_2-1.py:9 | Lower-casing keeps whitespace where it was, so it never changes the word split. |
| PenguinPicker.FilteredPenguins | basic-streamlit-app/main.py:17-22 | `filtered_df` holds exactly the penguins of the chosen species and sex with a recorded body mass at most the bound, every copy of each, in table order. A penguin with no recorded sex never appears. |
| PenguinPicker.RaisingMassKeepsPenguins | basic-streamlit-app/main.py:19-22 | Raising the mass bound never removes a penguin, and keeps their order. |
| PenguinPicker.OfferedIds | basic-streamlit-app/main.py:28 | The offered ids are distinct, and are exactly the ids in `filtered_df`. |
| PenguinPicker.PickPenguin | basic-streamlit-app/main.py:27-36 | The "No penguins match" branch runs exactly when `filtered_df` is empty. Otherwise `selected_penguin` holds exactly the filtered penguins with the picked id, every copy of each, in their order in `filtered_df`. |
| PenguinPicker.OfferedIdSelectsPenguin | basic-streamlit-app/main.py:28-30 | An offered id always selects at least one penguin. |
| InClassFilters.Cities | basic-streamlit-app/Week_4_2_streamlit_data_IN-CLASS.py:29 | The offered cities are distinct, and are exactly the cities of the table. |
| InClassFilters.PeopleIn | basic-streamlit-app/Week_4_2_streamlit_data_IN-CLASS.py:33 | The city filter keeps exactly the people living in the city, every copy of each, in table order. |
| InClassFilters.OfferedCityIsInhabited | basic-streamlit-app/Week_4_2_streamlit_data_IN-CLASS.py:29-33 | An offered city always shows somebody. |
| InClassFilters.DistinctCitiesAtMostOne | basic-streamlit-app/Week_4_2_streamlit_data_IN-CLASS.py:33 | When no two people share a city, the filter shows at most one person. |
| InClassFilters.OfferedCityShowsOne | basic-streamlit-app/Week_4_2_streamlit_data_IN-CLASS.py:29-33 | When no two people share a city, each offered city shows exactly one person. |
| InClassFilters.SampleCitiesDiffer | basic-streamlit-app/Week_4_2_streamlit_data_IN-CLASS.py:12-16 | The exercise's own four people live in four different cities. |
| InClassFilters.SalariesUpTo | basic-streamlit-app/Week_4_2_streamlit_data_IN-CLASS.py:55 | The salary filter keeps exactly the rows earning at most the bound, every copy of each, in table order. |
| InClassFilters.MaxSalaryKeepsAll | basic-streamlit-app/Week_4_2_streamlit_data_IN-CLASS.py:51-55 | At the slider's upper end, the largest Salary, every row is kept. |
| InClassFilters.RaisingSalaryKeepsRows | basic-streamlit-app/Week_4_2_streamlit_data_IN-CLASS.py:51-55 | Raising the salary bound never removes a row, and keeps their order. |

## Left out

- Everything Streamlit draws or reads: titles, text, widgets, warnings, `st.stop`, tables and images. The user's choices are parameters of the functions. The values the widgets offer are modelled only where a property depends on them: offered ids, offered cities, and the salary slider's maximum.
- File and CSV input (`read_csv`, the upload, `decode`). Every table is an input sequence of records.
- Matplotlib, and the per-country plotting loop at `StreamlitAppFinal/main.py:106-116`. The line chart is modelled only as whether it is drawn and with which scale. The per-country slices of `filtered` that it plots are not modelled.
- The sidebar's sorted country and indicator lists, and the year slider's bounds as numbers. The model keeps only the crash of `int(min)` on an empty `df_long` (`EmptyLongTable`). Streamlit's own checks on widget arguments are not modelled.
- The spaCy pipeline: model loading, EntityRuler set-up, `nlp(text)` and displaCy. The recognised entities are an input sequence.
- CountryComparison.Melt: labels are matched by position. pandas' lookup of renamed labels, which behaves differently when two year columns rename to the same label, is not modelled.
- Numbers.ParseNumber: only an optional sign, decimal digits and an optional fractional part. `to_numeric` also accepts exponents, "inf", "nan" and surrounding whitespace. Those forms are read as missing here.
- Numbers.ParseNumber: its own contract states only which characters coerce. The values are stated by `ParseDecimal`, `ParseMinus`, `ParsePlus` and `ParseShowInt`.
- Text.Words: its own contract states only that the words are non-empty and whitespace-free. That they are the maximal whitespace-free runs, in order, is stated by `WordsSplitAtSpace`, `SingleWord`, `WordsOfBlank` and `WordsKeepText`.
- Text.SplitLines: its own contract states only the shape of the lines. Which lines the text gives is stated by `LastLine`, `LineThenRest` and `LineThenCrLf`.
- Numbers are exact reals, not IEEE doubles, so rounding in `Value / scale` is not modelled.
- CountryComparison.ScaledMaximum: the "below 1000" bound is stated for millions and billions only. Under trillions the scaled maximum has no upper bound; a value of 1e15 shows as 1000.
- Text.Lower and Text.Upper: ASCII letters only. Python's full Unicode case mapping is not modelled.
- Sentiment.CaseInsensitive: holds for this ASCII model. With Python's Unicode mapping, "terrıble" (dotless i) upper-cases and lower-cases to "terrible", so it would not hold in general.
- EntityPatterns.Analyse: the order among combinations with equal counts is the model's own. pandas does not fix it, and no contract here depends on it.
- InClassFilters.SalariesUpTo: a missing Salary (NaN) fails `<=` in pandas. The model assumes every row has a salary. The other columns of `sample_data.csv` are opaque text.
- The display-only `astype(str)` of the Year column (`StreamlitAppFinal/main.py:166`).
