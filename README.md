# Video game lakehouse dashboard: filtered view and chart projections

This project models the one part of the Streamlit dashboard `Dashboard/app.py` that computes anything: how it gets its views from the table of games loaded from the lakehouse's gold layer. It covers:

- the **filtered view** `df`. A row of `df_raw` is kept when its `name` contains the sidebar's search text, ignoring case, and its `metacritic` score lies in the slider's range, inclusive at both ends. The kept rows stay in their original order (boolean-mask indexing).
- the **"Total Games"** metric, which is the number of rows in the view.
- the **"Top Games por Rating"** projection, which sorts the view by `rating` in descending order and keeps the first 10 rows.
- the **Metacritic trend** projection, which sorts the view by `released` in ascending order.

Files and modules:

- `games.dfy` (`Games`): the row type `Game` with the five queried columns, and the table as `seq<Game>`.
- `text.dfy` (`Text`): ASCII case folding and literal substring search. `Contains` is proved equal to the existential definition "occurs at some position".
- `view.dfy` (`View`): the mask, indexing by a mask (`Select`, `Positions`), `Filter`, the count, and the filter's properties.
- `projections.dfy` (`Projections`): `sort_values` modelled as an insertion sort on one column, `head`, and the two projections with their sortedness, permutation and top-10 properties.

Everything in the core is pure, so the model is functions and lemmas. Because tables are Dafny values, filtering cannot change `df_raw`: this holds by construction and needs no lemma. The same goes for recomputing the view with the same inputs, which always gives the same result. `real` stands for the floating-point `rating` and `playtime` columns; only comparisons on them are used. `released` is an integer day number: the date has already been parsed.

The two widgets limit the inputs:

- The slider produces `0 <= lo <= hi <= 100`. Its default is `(0, 100)`.
- The text box defaults to `""`.

These limits are preconditions (`ValidRange`). `str.contains` reads the search text as a regular expression. The model matches a literal substring instead, so it also requires that the search text contain no regular-expression metacharacters (`PlainText`).

Two points about the code that the model keeps:

- `sort_values` uses a quicksort by default, and it is not stable. The model therefore makes no claim about the order of equal ratings or dates. `AnyRatingOrderGivesTop` proves the top-10 property for every order of ties.
- The code has no policy for an empty view. Its means are left out of the model; see below.

## Model

| member | source | states |
|---|---|---|
| `Text.Lower` | Dashboard/app.py:49 | ASCII case folding leaves no upper-case letter, maps letters to letters and non-letters to themselves, and changes only upper-case letters |
| `Text.Upper` | Dashboard/app.py:49 | the opposite fold: no lower-case letter remains, letters stay letters, and only lower-case letters change |
| `Text.CaseFoldChar` | Dashboard/app.py:49 | folding to lower case is idempotent, and a character and its upper-case form fold alike |
| `Text.Contains` | Dashboard/app.py:49 | the literal substring search always finds the empty text and never finds a text longer than the name (exact meaning: `Text.ContainsIff`) |
| `Text.Matches` | Dashboard/app.py:49 | `str.contains(search, case=False)` on a literal text holds exactly when the folded search text occurs at some position of the folded name; the empty text matches every name |
| `Text.ContainsIff` | Dashboard/app.py:49 | the substring search succeeds exactly when the search text occurs at some position of the name (both directions) |
| `Text.MatchesIgnoresCase` | Dashboard/app.py:49 | with `case=False`, lower-casing or upper-casing the search text or the name does not change whether the name matches |
| `View.Keep` | Dashboard/app.py:49-50 | a kept row has a score in `[lo, hi]` and a name at least as long as the search text; with an empty search text only the score decides |
| `View.Mask` | Dashboard/app.py:49-50 | the `&` of the name test and the score test has one entry per row, true exactly when that row meets the condition |
| `View.Select` | Dashboard/app.py:48-51 | `df_raw[mask]` is no longer than the table and holds only rows of the table (positions: `View.SelectAt`) |
| `View.Positions` | Dashboard/app.py:48-51 | the positions where the mask holds are strictly increasing, in range, all true in the mask, and include every true entry |
| `View.SelectAt` | Dashboard/app.py:48-51 | indexing by a mask gives one element per true position, namely the element at that position, in order |
| `View.Filter` | Dashboard/app.py:48-51 | the view is no longer than the table, and every row in it contains the search text (ignoring case) and has a score in `[lo, hi]` |
| `View.FilterIsMaskedSubsequence` | Dashboard/app.py:48-51 | the view is the table's rows at increasing positions, and a position is among them exactly when its row meets the condition: order is kept and no row is added or dropped |
| `View.FilterMembership` | Dashboard/app.py:48-51 | a row is in the view if and only if it is in the table, its name contains the search text ignoring case, and `lo <= metacritic <= hi` |
| `View.FilterIgnoresSearchCase` | Dashboard/app.py:49 | searching for the lower-case or upper-case form of the text gives the same view |
| `View.FilterKeepsBounds` | Dashboard/app.py:50 | a matching row scored exactly `lo` or exactly `hi` is kept |
| `View.SelectAll` | Dashboard/app.py:48 | a mask that is true everywhere keeps the whole table |
| `View.FilterKeepsAllIff` | Dashboard/app.py:48-51 | the view equals the table if and only if every row meets the condition |
| `View.FilterIdempotent` | Dashboard/app.py:48-51 | filtering the view again with the same inputs gives the same view |
| `View.FilterDefaults` | Dashboard/app.py:41-51 | the default inputs are valid, and with them the view keeps exactly the rows scored in 0..100 (so the whole table when every score is in that range) |
| `View.TotalGamesOfFilter` | Dashboard/app.py:63 | "Total Games" equals the size of the set of table positions whose row meets the condition, is at most the table's length, and equals it exactly when no row is dropped |
| `View.KeptSetCard` | Dashboard/app.py:48-51 | there are as many kept positions as table positions whose row meets the condition |
| `View.HaloScenario` | Dashboard/app.py:48-51 | the two-row "Halo"/"Halo 2" table searched for "halo" in 80..100 is kept whole, and the count is 2 |
| `Projections.Insert` | Dashboard/app.py:74 | inserting a row adds exactly that row to the multiset of rows |
| `Projections.InsertSorted` | Dashboard/app.py:74 | inserting into a sorted table keeps it sorted |
| `Projections.SortValues` | Dashboard/app.py:74 | `sort_values` returns a permutation of its input, sorted on the column in the requested direction |
| `Projections.Head` | Dashboard/app.py:74 | `head(n)` is a prefix of length `min(n, len)` |
| `Projections.TopGames` | Dashboard/app.py:74 | the top-games projection has `min(10, len(df))` rows, all drawn from `df`, in non-increasing order of rating |
| `Projections.HeadOfSortedIsTop` | Dashboard/app.py:74 | for ANY sorted permutation of `df`, no row left out of its first `n` rows may stand before a row taken |
| `Projections.TopGamesAreHighestRated` | Dashboard/app.py:74 | every row of `df` left out of the top-games projection (counted as a multiset) is rated no higher than every row shown |
| `Projections.AnyRatingOrderGivesTop` | Dashboard/app.py:74 | whatever order the library's unstable sort gives equal ratings, the first 10 rows number `min(10, len(df))`, are drawn from `df` as a sub-multiset, are in non-increasing order of rating, and every row left out is rated no higher than every row shown |
| `Projections.Chronological` | Dashboard/app.py:79 | the trend series is a permutation of `df`, in non-decreasing order of release day |

## Left out

- Connection and query (`get_conn`, `load_data`, lines 15-32) and Streamlit's caching of them: network I/O and library memoisation.
- All page layout, styling, sidebar widgets, columns, charts, the data table and the architecture text (lines 6-13, 38-46, 53-92). The widgets enter the model only as the limits on their values.
- The freshness banner built from `datetime.now()` (line 59): a clock read used only for display.
- Parsing `released` with `pd.to_datetime` (line 36): a foreign library. The model starts from a parsed day number.
- The three means and their formatting (lines 64-66): floating-point arithmetic. On an empty view the metacritic mean is NaN, `int(NaN)` raises, and the generic handler reports a connection error. The model claims no behaviour for the empty case.
- The error handler's messages (lines 94-96): presentation only.
- `View.Filter`: `str.contains` with its default `regex=True` is modelled only for search texts without regular-expression metacharacters, which match literally. Other search texts are excluded by precondition.
- `Text.Matches`: case is folded for ASCII letters only. The library's case-insensitive matching also folds other Unicode letters, and the model does not.
- Missing values: NaN or NA in `name` or `metacritic` and how pandas propagates them through the mask, and a missing `rating` or `released` (NaN, or NaT after date parsing), which `sort_values` puts last at lines 74 and 79. The row type's `int` and `real` columns have no missing values.
- `Projections.SortValues`: its result is one admissible order. The library's quicksort may order equal keys differently, so no lemma depends on how ties are ordered.
- Sorting in place: the source's `sort_values` returns a new frame, so the model has no array method.
