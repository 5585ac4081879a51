# tfwr-leaderboard in Dafny

A model of the logic behind the "The Farmer Was Replaced" leaderboard
dashboard. The dashboard is a Streamlit app over three CSV snapshots. The
model covers the pure logic that decides what the app shows, with each
Streamlit call replaced by the value it would render:

- the duration and gap texts of the ranking tables (`ms_to_str`,
  `gap_ms_to_str`);
- the tooltip text of the history chart (`_format_ms`);
- column-name prettifying and the "… ago" text;
- the tab list and the colour and emoji lookups by first word;
- the over-time chart pipeline:
  - pick a time column;
  - keep one leaderboard and parse and window its timestamps to the last 14 days;
  - melt the `*_ms` duration columns into (row, series, value) records;
  - name the series "Top N" by the first-match heuristic;
  - optionally hide "Top 100";
  - compute the default y-axis bound;
  - otherwise return one of the seven `st.info` outcomes;
- the navigation state: the session's selection and the `leaderboard` query
  parameter;
- the percentile metrics, the podium and the ranking rows of the leaderboard
  page.

The modules follow the source files:

| module | file |
|---|---|
| `Text`, `Wrappers`, `Seqs`, `Clock` | shared helpers: Python string and integer formatting, `Option`, boolean-mask filtering, reading clock text back |
| `Typing` | utils/typing.py |
| `Prettify` | utils/prettify.py |
| `Constants` | utils/constants.py |
| `SeriesLabels` | `_standardize_series_label`, `_series_color`, `_series_dash` in utils/altair_charts.py |
| `ChartTable` | `_find_time_column`, `_melt_measure_columns` and the table steps of `display_over_time_chart` |
| `OverTime` | `display_over_time_chart` up to the y-axis bound, including `_format_ms` |
| `Navigation` | `_get_query_leaderboard`, `_set_query_leaderboard` and the selection sync of `main` in main.py |
| `Leaderboard` | `display_percentiles`, `display_top3`, `display_leaderboard` in main.py |

Modelling choices:

- Durations and timestamps are integers of milliseconds.
- A missing or `NaN` duration is `None`.
- What `pd.to_datetime(..., errors="coerce")` makes of a cell is a
  parameter of the pipeline.
- Python's floor `divmod` with a positive divisor is Dafny's `/` and `%`, so
  negative durations are modelled as the source computes them.

Behaviour worth knowing:

- `_standardize_series_label` tests tier 1 before tiers 2, 3, 10 and 100.
  So "top100" is labelled "Top 1" (`SeriesLabels.Top100ColumnIsTop1`).
  Likewise a frame with `top1_ms` and `top100_ms` columns plots both as
  "Top 1", and hiding "Top 100" removes nothing from it.
- `ms_to_str(0)` is "00:00.000", with two-digit minutes. "0:00.000" is what
  the tooltip formatter `_format_ms` gives (`OverTime.FormatMsZero`).
- The series-label normaliser strips whitespace first and then replaces `-`
  and `.` with spaces. So a name ending in `-` keeps a trailing space.

## Model

| member | source | states |
|---|---|---|
| Typing.MsToStr | utils/typing.py:11-25 | the text is empty exactly for a missing (`None`/`NaN`) duration |
| Typing.MsToStrRoundTrip | utils/typing.py:16-22 | reading the text back as `[H…:]MM:SS.mmm` gives the same number of ms, for every integer, negative ones included |
| Typing.ClockTextRoundTrip | utils/typing.py:20-22 | reading back the `[H…:]MM:SS.mmm` text of any valid clock gives that clock's total milliseconds |
| Typing.MsToStrReadsBack | utils/typing.py:11-22 | a present duration's text reads back as that duration |
| Typing.MsToStrUnderAnHour | utils/typing.py:20-22 | for 0 <= ms < 1 h the text is nine characters, `MM:SS.mmm`, whose fields hold the minutes, the seconds and the milliseconds |
| Typing.MsToStrFromAnHour | utils/typing.py:20-21 | from one hour on the text is the whole hours zero-padded to two digits, `:`, then the text of the rest of the hour |
| Typing.MsToStrColons | utils/typing.py:20-22 | the text has two colons exactly when the hours field is non-zero (at least an hour, or negative), one otherwise |
| Typing.HoursShown | utils/typing.py:16-20 | the hours of the divmod chain are non-zero exactly for durations of at least an hour or below zero |
| Typing.MsToStrMillis | utils/typing.py:21-22 | every text ends in `.` and three digits whose value is ms mod 1000 |
| Typing.GapMsToStr | utils/typing.py:28-29 | the gap text is non-empty exactly for a positive gap, and is then `+` followed by a text that reads back as the gap |
| Clock.SplitMs | utils/typing.py:16-18 | the divmod chain gives minutes and seconds below 60 and milliseconds below 1000 that recompose to the input |
| Clock.SplitMsOfToMs | utils/typing.py:16-18 | splitting a recomposed clock gives the clock back |
| Prettify.Title | utils/prettify.py:9 | `title()` upper-cases a letter at the start or after a non-letter and lower-cases every other letter, keeping the length |
| Prettify.TitleIsTitled | utils/prettify.py:9 | a letter of the result is upper-case exactly when it starts a word |
| Prettify.TitleIdempotent | utils/prettify.py:9 | title-casing twice is title-casing once |
| Prettify.PrettifyColnames | utils/prettify.py:6-9 | the result has the input's length, no `_`, a space where the input had `_`, and title case elsewhere |
| Prettify.PrettifyIdempotent | utils/prettify.py:6-9 | prettifying a prettified name changes nothing |
| Prettify.PrettifySteamName | utils/prettify.py:6-9 | `steam_name` becomes "Steam Name" |
| Text.Strip | utils/altair_charts.py:58 | `strip()` keeps a contiguous run of the input, drops only whitespace before and after it, and leaves the run without whitespace at either end |
| Prettify.DeltaOf | utils/prettify.py:12-21 | the unit is seconds below 60 (negatives included), minutes below 3600, hours below 86400, days beyond; minutes count 1-59 and hours 1-23, each the whole units in the delta |
| Prettify.FormatDelta | utils/prettify.py:12-21 | the text reads back as the count and unit of the delta |
| Constants.FirstWord | utils/constants.py:54 | `split()[0]` is the first whitespace-free run, preceded only by whitespace and followed by whitespace or the end; defined only for names with a word |
| Constants.FirstWordUnique | utils/constants.py:54 | that characterisation admits exactly one word |
| Constants.GetLeaderboardColor | utils/constants.py:53-54 | the colour of the first word, `DEFAULT_COLOR` when it has none |
| Constants.GetEmoji | utils/constants.py:57-58 | the emoji of the first word, ":man_farmer:" when it has none |
| Constants.LookupsIgnoreLaterWords | utils/constants.py:53-58 | appending whitespace and more words changes neither the colour nor the emoji |
| Constants.HaySingleLikeHay | utils/constants.py:26-58 | "Hay Single" gets the colour and emoji of "Hay" |
| Constants.UnknownWordDefaults | utils/constants.py:50-58 | an unknown first word gets "#1f77b4" and ":man_farmer:" |
| Constants.TabsWellFormed | utils/constants.py:6-48 | the first tab is "Overview" and every other tab's first word has a colour and an emoji |
| Constants.TabsDistinct | utils/constants.py:6-24 | no tab appears twice |
| SeriesLabels.Normalize | utils/altair_charts.py:58 | the name is `strip()`ped, with every `-` and `.` of the stripped text turned into a space and every other character kept in place; so it has no `-` or `.` and is no longer than the raw name |
| SeriesLabels.TierOf | utils/altair_charts.py:61-100 | a returned tier is one of 1, 2, 3, 10, 100 and its token test matches the name |
| SeriesLabels.TierOfIsFirstTier | utils/altair_charts.py:65-100 | the tier is the first of 1, 2, 3, 10, 100 whose test matches, and there is none when no test matches |
| SeriesLabels.StandardizeSeriesLabel | utils/altair_charts.py:57-101 | the label is "Top n" for the tier n the cascade picks from the lower-cased normalised name, and the prettified normalised name when no tier matches; it is one of the "Top N" labels exactly when a tier matched |
| SeriesLabels.FallbackIsNoTier | utils/altair_charts.py:101 | a prettified fallback name never reads as a "Top N" label |
| SeriesLabels.Top1Shadows | utils/altair_charts.py:65-70 | any name containing `top1` is tier 1, whatever follows |
| SeriesLabels.EndingInOneIsTop1 | utils/altair_charts.py:65-70 | any name ending in `1` is tier 1, "…101" included |
| SeriesLabels.Top100ColumnIsTop1 | utils/altair_charts.py:57-100 | the column name "top100" is labelled "Top 1" |
| SeriesLabels.NormalTop1Label | utils/altair_charts.py:57-70 | a name that is its own lower-cased normal form and contains `top1` is labelled "Top 1" |
| SeriesLabels.DigitFreeNoTier | utils/altair_charts.py:65-101 | a name without digits matches no tier |
| SeriesLabels.DurationLabel | utils/altair_charts.py:52 | the single-series label, of "duration", is "Duration" |
| SeriesLabels.CleanLabel | utils/altair_charts.py:57-101 | a name with no surrounding whitespace, `-`, `.`, upper-case letter or digit is labelled with its prettified self |
| SeriesLabels.SeriesColor | utils/altair_charts.py:104-112 | a "Top N" label gets its listed colour, any other label `DEFAULT_COLOR` |
| SeriesLabels.SeriesColorFacts | utils/altair_charts.py:104-112 | "Top 10" and "Top 100" share "#636363", they are the only two labels sharing a colour, and only unlisted labels get the default |
| SeriesLabels.SeriesDash | utils/altair_charts.py:115-119 | the dash is `[4, 4]` exactly for "Top 100", `[1, 0]` for every other label |
| ChartTable.AnyParses | utils/altair_charts.py:20-21 | true exactly when some cell of the column parses as a timestamp |
| ChartTable.FindTimeColumn | utils/altair_charts.py:15-23 | the result is the first of the six candidates that is a column with a parseable cell; no earlier candidate qualifies; `None` exactly when no candidate qualifies |
| ChartTable.TimeColumnNotMeasure | utils/altair_charts.py:16-28 | no time-column candidate ends in `_ms`, so the time column is never melted |
| ChartTable.SelectLeaderboard | utils/altair_charts.py:130 | the kept rows are exactly the rows naming the leaderboard, each as often as in the frame and as a subsequence of the frame, so in frame order; the columns are unchanged |
| Seqs.FilterUnique | utils/altair_charts.py:130 | a boolean-mask selection is determined by its order and multiplicities: a subsequence holding each kept element exactly as often as the input, and no other, is the filter |
| Seqs.SubsequenceIndices | utils/altair_charts.py:130 | a subsequence's elements sit in the input at strictly increasing positions |
| ChartTable.ParseTimes | utils/altair_charts.py:140-141 | the result lists, in order, exactly the rows whose time cell parses, one for each, each with its parsed timestamp written into the time column and every other cell kept; nothing is kept exactly when no cell parses |
| ChartTable.MaxTs | utils/altair_charts.py:147 | the maximum is the timestamp of some row and no row is later |
| ChartTable.Window | utils/altair_charts.py:147-149 | the kept rows are exactly those at most 14 days older than the newest, each as often as in the input and as a subsequence of it, so in input order |
| ChartTable.WindowKeepsNewest | utils/altair_charts.py:147-152 | the newest row always survives, so a non-empty frame gives a non-empty window |
| ChartTable.WindowSpan | utils/altair_charts.py:146-149 | any two rows of the window are at most 14 days apart |
| ChartTable.MeasureColumns | utils/altair_charts.py:28 | the measure columns are exactly the columns ending in `_ms`, each as often as in the frame, in the frame's column order |
| ChartTable.DropMsSuffix | utils/altair_charts.py:39 | the trailing `_ms` is removed and nothing else changes |
| ChartTable.MeltCell | utils/altair_charts.py:30-41 | a record carries its row's timestamp, every non-`_ms` cell of the row with its value, the labelled column name and that column's cell |
| ChartTable.Melt | utils/altair_charts.py:30-35 | the melt has one record per (measure column, row) |
| ChartTable.MeltIndex | utils/altair_charts.py:30-41 | record `j * rows + i` is the record of column `j` and row `i` |
| ChartTable.MeltSource | utils/altair_charts.py:30-41 | every record of the melt is the record of some column and some row |
| ChartTable.MeltTimes | utils/altair_charts.py:26-54 | melting invents no timestamps |
| ChartTable.SingleRecord | utils/altair_charts.py:51-53 | the single-series record keeps the whole row and copies the value column |
| ChartTable.MeltMeasureColumns | utils/altair_charts.py:26-54 | nothing exactly when no column ends in `_ms`; the melt with several; one record per row otherwise |
| ChartTable.SingleMeasure | utils/altair_charts.py:43-54 | with one `_ms` column every row gives one record labelled "Duration" holding that column's cell |
| ChartTable.HideTop100 | utils/altair_charts.py:160-162 | hiding removes exactly the "Top 100" records and keeps every other record, with its multiplicity and in its original order |
| OverTime.FormatMs | utils/altair_charts.py:168-174 | the tooltip is empty exactly for a cell that is not a finite number |
| OverTime.FormatClock | utils/altair_charts.py:182-184 | the clock text is never empty |
| OverTime.FormatMsFields | utils/altair_charts.py:175-181 | the tooltip renders the clock fields of the duration clamped at zero |
| OverTime.FormatMsRoundTrip | utils/altair_charts.py:168-184 | reading the tooltip back gives the duration, negatives read as zero |
| OverTime.HoursTooltipRoundTrip | utils/altair_charts.py:182-183 | the tooltip with an hours field reads back as the clock's total milliseconds |
| OverTime.MinutesTooltipRoundTrip | utils/altair_charts.py:184 | the tooltip without an hours field reads back as the clock's total milliseconds |
| OverTime.FormatMsColons | utils/altair_charts.py:182-184 | the tooltip has an hours field (two colons) exactly from one hour on |
| OverTime.FormattersAgree | utils/altair_charts.py:177-184 | for a non-negative duration the table text is the tooltip text with a `0` added before a single-digit leading field |
| OverTime.FormatMsZero | utils/altair_charts.py:175-184 | zero is "0:00.000" in the tooltip and "00:00.000" in the tables |
| OverTime.LatestIndex | utils/altair_charts.py:191 | the value `groupby(series).last()` keeps after sorting by time is the latest numeric record of the series, the later one on a tie; none exactly when the series has no number |
| OverTime.LatestIsLatest | utils/altair_charts.py:191 | a series with a numeric record has a latest value no record of it is newer than |
| OverTime.MinLatest | utils/altair_charts.py:197 | the minimum of the latest values is one of them and no larger than any; none exactly when no series has one |
| OverTime.Triple | utils/altair_charts.py:198 | `max(0, 3 * base)`, zero for a missing (`NaN`) base |
| OverTime.YMax | utils/altair_charts.py:188-198 | the bound is never negative; with a "Top 1" series it is three times that series' latest value; otherwise it is at most three times every series' latest value, equal to three times one of them when some series has one, and 0 when none has |
| OverTime.Points | utils/altair_charts.py:186 | every plotted record keeps its fields and carries its duration's tooltip text |
| OverTime.ChartOf | utils/altair_charts.py:160-198 | "nothing after filtering Top 100" exactly when hiding and every record is in "Top 100"; otherwise the chart draws exactly the records left after hiding, with their tooltips and the bound `YMax` gives for them |
| OverTime.ChartOfWindow | utils/altair_charts.py:154-198 | "no duration columns" exactly when no column ends in `_ms`; "nothing after filtering Top 100" exactly when the melt is all "Top 100" and hiding is on; otherwise the chart draws the melt after hiding, with its bound |
| OverTime.ChartOfSelection | utils/altair_charts.py:135-198 | "no time column" exactly when no candidate parses; "no duration columns" exactly when one does and no column ends in `_ms`; "nothing after filtering Top 100" exactly when the melted window is all "Top 100" and hiding is on; otherwise the chart draws that melt after hiding |
| OverTime.SelectionRecords | utils/altair_charts.py:136-155 | the melted records of the selection's 14-day window exist only when a time column is found, and then exactly when some column ends in `_ms` |
| OverTime.OverTimeChart | utils/altair_charts.py:125-198 | the missing-column and no-rows notices come exactly under their conditions; for a non-empty selection the outcome is the selection stage's, notice for notice and point for point; "no valid timestamps" and "no data in the last 14 days" never occur |
| OverTime.NoLeaderboardRows | utils/altair_charts.py:130-133 | the selection is empty exactly when no row names the leaderboard |
| OverTime.ChartOfWindowTimes | utils/altair_charts.py:147-162 | every plotted point has the timestamp of a row of the window |
| OverTime.ChartWithinWindow | utils/altair_charts.py:146-152 | any two plotted points are at most 14 days apart |
| OverTime.SelectionWithinWindow | utils/altair_charts.py:140-152 | any two points of a non-empty selection's chart are at most 14 days apart |
| OverTime.SelectionWindow | utils/altair_charts.py:136-155 | a chart of the selection is the chart of the 14-day window of its parsed rows, and that window is not empty; the parsed rows are the parse of the found time column |
| Navigation.QueryLeaderboard | main.py:163-165 | the first query value, or "Overview" when there is none |
| Navigation.QueryRoundTrip | main.py:163-169 | reading the query parameter back after setting it gives the set value |
| Navigation.SyncSelection | main.py:180-188 | a new session takes a valid query value and "Overview" otherwise; an existing selection changes only to a valid query value |
| Navigation.InvalidQueryKeepsSelection | main.py:185-188 | a query value that is not a tab never moves an existing selection |
| Navigation.Sync | main.py:179-192 | the selection is the one `SyncSelection` picks from the session and the URL's value, always a tab; the URL is rewritten to name it exactly when its value differs, and left alone otherwise |
| Navigation.SyncIdempotent | main.py:190-192 | a second sync changes nothing |
| Navigation.Click | main.py:200-207 | a button selects its tab and writes it to the URL |
| Navigation.Step | main.py:179-207 | an edited URL is taken as it is and the selection kept; a run syncs, then a click on a tab's button selects that tab; without a valid click the run is just the sync; after a run the URL names the selection |
| Navigation.SelectionAlwaysATab | main.py:179-207 | over any sequence of URL edits and runs the selection stays a tab, and after a run the URL names it |
| Navigation.FirstRun | main.py:180-192 | the first run of a new session lands on the URL's tab, or "Overview" when it names none |
| Leaderboard.PercentileFields | main.py:93 | the fields are exactly the keys starting with `p` and ending in `_ms`, each as often as in the record and in key order |
| Leaderboard.LStripChar | main.py:97 | `lstrip("p")` removes the leading run of `p` and only that |
| Leaderboard.RStripChars | main.py:97 | `rstrip("_ms")` removes the trailing run of `_`, `m` and `s` characters and only that |
| Leaderboard.TitleOfDigits | main.py:97-98 | `p<digits>` followed by any run of `_`, `m`, `s` is titled "Top <value>%" |
| Leaderboard.PercentileTitleOfField | main.py:93-98 | `p<n>_ms` is a percentile field titled "Top <n>%" |
| Leaderboard.PercentileTimeFromAnHour | main.py:99-101 | from one hour on the metric shows the duration text without its `.mmm`, keeping both colons |
| Leaderboard.PercentileTimeUnderAnHour | main.py:99-101 | under an hour the metric shows the whole duration text |
| Leaderboard.PercentileMetrics | main.py:95-102 | one metric per field, titled and timed from that field; none exactly when a title cannot be read |
| Leaderboard.UnreadableField | main.py:93-97 | some percentile key has an unreadable title exactly when some listed field does |
| Leaderboard.DisplayPercentiles | main.py:92-107 | the percentile metrics in key order followed by "Entries"; none exactly when some percentile field has an unreadable title |
| Leaderboard.ShownEntries | main.py:111-114 | the shown rows are exactly the rows of the leaderboard ranked `top_n` or better, each as often as in the snapshot, in snapshot order |
| Leaderboard.LineOf | main.py:116-128 | a row's line keeps its rank and player; its time is empty exactly for a missing duration and otherwise reads back as it; each gap is shown exactly when positive, as `+` and a text that reads back as the gap |
| Leaderboard.DisplayLeaderboard | main.py:110-129 | line i renders, as `LineOf` does, a row of the leaderboard ranked `top_n` or better; the lines follow the shown rows; the height is the requested one exactly from 50 lines on, automatic below |
| Leaderboard.InsertByRank | main.py:83 | inserting into rows sorted by rank keeps them sorted and adds exactly the one row |
| Leaderboard.SortByRank | main.py:83 | the result is sorted by rank and a permutation of the input |
| Leaderboard.PodiumOf | main.py:86-89 | a medal box holds its medal, the row's player, and a time that is empty exactly for a missing duration and otherwise reads back as it |
| Leaderboard.PodiumEntries | main.py:79-87 | at most three rows of the leaderboard ranked 3 or better, sorted by rank, as many as there are up to three, and no shown row left out ranks better than one kept |
| Leaderboard.DisplayTop3 | main.py:78-89 | one medal box per podium row, gold first, with the player and a time that is empty exactly for a missing duration and otherwise reads back as it |

## Left out

- The Altair chart itself (utils/altair_charts.py:204-309): the Vega expressions, the axis anchored to the current time, and the hover and zoom selections. It is a declarative library evaluated outside Python.
- Streamlit rendering. `st.info`, `st.metric`, `st.columns`, `st.dataframe`, `info_box` and `display_last_updated` become returned values or are not modelled. The page headers and the Overview loop (main.py:209-232) are layout only.
- `st.session_state` and `st.query_params` are plain values. Query parameters other than `leaderboard` are not modelled.
- CSV and S3 loading and the five-minute cache (main.py:30-53): I/O and time-based caching.
- `get_last_updated` and `series_human_friendly_time` depend on the wall clock. `format_delta` is modelled on the whole seconds of its timedelta.
- `display_dataframe` (main.py:63-75) is not called by the app.
- `_add_duration_cols` (utils/typing.py:4-8) is not called by the app.
- The duplicate `get_leaderboard_color` and `get_emoji` in main.py:22-27 are identical to the ones in utils/constants.py, which are modelled.
- The single-series branch at utils/altair_charts.py:199-202 is dead: the series column is always "series".
- Floating point is not modelled. Durations are integers, so `int(ms)` truncation of fractional milliseconds is not modelled either.
- Timestamps are integers of milliseconds. Time zones are not modelled, and pandas' datetime parsing is the `parse` parameter.
- OverTime.NumberOf: a text cell that holds a number, which `float()` would accept, renders as an empty tooltip in the model. Duration columns are numeric in the data.
- OverTime.LatestIndex: ties between records with the same timestamp go to the later record. pandas' default sort is not guaranteed stable, so the source leaves that choice open.
- Leaderboard.SortByRank: rows of equal rank keep their order in the model. The contract promises only sortedness and permutation, which is all the source guarantees.
- Leaderboard.PercentileTitle: `int()` also accepts surrounding whitespace, a `+` sign and `_` between digits. The model reads only an optional `-` followed by digits.
- SeriesLabels.StandardizeSeriesLabel: `str.lower()` is modelled on ASCII letters only. Python also lower-cases other letters, for example U+212A KELVIN SIGN to `k`, so a name such as "ran\u212A 2x" matches the `rank 2` token in the source but falls back to the prettified name in the model.
- Prettify.Title: `str.title()` is modelled on ASCII letters only. Other characters count as non-letters.
- The rank of a snapshot row is an integer. A missing rank, which `rank <= top_n` would exclude, is not modelled.
- Constants.GetLeaderboardColor and Constants.GetEmoji: on an empty or all-whitespace name `split()[0]` raises IndexError. The model requires a name with a word and does not model the exception. Every tab name has a word (`Constants.TabsWellFormed`).
- The exception print in `ms_to_str` (utils/typing.py:23-25) cannot be reached on integers.
