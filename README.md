# IMDb Top 250 dashboard: the table layer, verified

The dashboard in `app.py` scrapes IMDb's Top 250 chart and draws charts with plotly. Between the scraping and the charts sits a small layer of table code, and this project models that layer in Dafny and proves what it computes:

- **Normalising the scraped strings.** The director comes from the credits text (line 23). The rating is read with `float` (line 24) and the release year with `int` (line 28). The title cells are cleaned by the loop of lines 32-37.
- **Building the movie table** column by column (lines 39-42).
- **The decade column** (line 64), the per-decade summary of mean rating and movie count (lines 66-75), and each decade's percentage of all movies (line 129).
- **The top-`n` selection** (line 154) and the ranking of years by number of movies (lines 179-186).

Ratings are counted in tenths (`8.6` is `86`), which is exact because IMDb prints one decimal. Means and percentages are exact `real`s.

Module layout, one file each:

| file | module | models |
|---|---|---|
| `results.dfy` | `Results` | `Option` and `Result` |
| `seqs.dfy` | `Seqs` | `filter`, `head`, the `n`-row cut of `nlargest`, column maps |
| `text.dfy` | `Text` | `str.strip`, `str.strip(chars)`, `str.split(c)[0]`, `str(n)` |
| `numbers.dfy` | `Numbers` | `int(text)` and `float(text)` on the scraped texts, skipping the surrounding spaces CPython skips (`Text.NumberSpace`) |
| `titles.dfy` | `TitleCleaning` | the two `re.sub` calls, as a left-to-right scan, and the cleaning loop |
| `decades.dfy` | `Decades` | `10 * (year // 10)` |
| `frame.dfy` | `Movies` | the movie record, the table as a class whose columns are assigned in place, `get_data` |
| `grouping.dfy` | `Grouping` | `groupby` keys, group sizes, group values and means |
| `sorting.dfy` | `Sorting` | the stable sort behind `sort_values` and `nlargest` |
| `summary.dfy` | `Summary` | `avg_rating_per_decades`, the merge, the percent column |
| `ranking.dfy` | `Ranking` | `top_n_movies` and `number_of_films_group_date` up to their charts |

The table is the class `Movies.MovieFrame`:

- Its fields are the columns: `titles`, `releaseYears`, `directors`, `ratings` and `decades`.
- A set `columns` records which columns besides `Titles` have been assigned.
- Assigning a column of the wrong length is refused and leaves the table unchanged, as pandas' `ValueError` does.
- `AddDecadeColumn` writes the decade column in place, as line 64 writes into the global table.

`Movies.GetData` runs the steps of `get_data` in the source's order. `Movies.Scrape` is the pure statement of their combined result. The analyses take the table (`Summary.AvgRatingPerDecades` changes it) or its columns.

## Model

| member | source | states |
|---|---|---|
| Text.Strip | app.py:37 | `strip` leaves a text that neither starts nor ends with a stripped character, and it is no longer than the input |
| Text.StripPadded | app.py:23 | a stripped text padded with stripped characters on both sides comes back exactly |
| Text.StripKeeps | app.py:28 | a character outside the stripped set survives `strip` |
| Text.StripWithin | app.py:23 | `strip` only keeps characters of its input |
| Text.StripBlank | app.py:28 | `strip` returns the empty text exactly when every character is in the stripped set |
| Text.StripIdempotent | app.py:37 | stripping twice is stripping once |
| Text.BeforeFirst | app.py:23 | `split(c)[0]` is a prefix without `c`, ending at the end or at the first `c` |
| Text.BeforeFirstAt | app.py:23 | the first `c` at position `k` makes `split(c)[0]` the first `k` characters |
| Movies.Director | app.py:23 | the director never contains `(` and has no surrounding whitespace |
| Movies.DirectorOfPlainCredit | app.py:23 | a credit without `(` gives the whole credit, stripped |
| Movies.DirectorOfCredit | app.py:23 | `"  Name  (dir.), Star"` gives `Name` for any stripped name without `(` and any whitespace padding |
| Numbers.IntRoundTrip | app.py:28 | `int` of `str(i)` padded by the spaces `int` skips (`Text.NumberSpace`: whitespace other than U+001C to U+001F) is `i`, negative numbers included |
| Numbers.SignedRoundTrip | app.py:28 | the sign and digit reader inverts `str(i)` |
| Numbers.IntRejectsForeign | app.py:28 | a character other than a skipped space, a digit, a sign or `_` makes `int` fail; so does one of U+001C to U+001F |
| Numbers.IntRejectsBlank | app.py:28 | `int` of an empty text, or one of skipped spaces only, fails |
| Numbers.YearRoundTrip | app.py:28 | any mix of `(` and `)` around `str(y)` is stripped and the year read back, so `"(1994)"` gives 1994 |
| Numbers.RatingRoundTrip | app.py:24 | `float` of a rating printed with one decimal, padded by the spaces `float` skips (`Text.NumberSpace`), gives its tenths back |
| Numbers.DecimalRoundTrip | app.py:24 | the decimal reader inverts the one-decimal printing |
| Numbers.TenthsRejectsForeign | app.py:24 | a rating text with a character other than a skipped space, a digit or a point fails |
| Numbers.TenthsRejectsTwoDecimals | app.py:24 | two digits after the point are rejected (see Left out) |
| TitleCleaning.MatchEndIsGreedyMatch | app.py:35-36 | the matcher finds a match at a position exactly when the regex can match there, and returns the longest one |
| TitleCleaning.SubSkip | app.py:35-36 | where no match starts, `re.sub` keeps the characters unchanged |
| TitleCleaning.RankRemoved | app.py:35 | on a chart cell, the first `re.sub` removes exactly the rank prefix |
| TitleCleaning.YearRemoved | app.py:36 | the second `re.sub` then removes exactly the year suffix |
| TitleCleaning.CleanTitle | app.py:35-37 | a cleaned title never starts or ends with whitespace |
| TitleCleaning.CleanCell | app.py:32-37 | a cell laid out as newline, indent, `rank.`, newline, indent, title, whitespace, `(year)`, newline cleans to exactly its title, for a title that is non-empty, has no surrounding whitespace, holds no newline and does not end in `)` |
| TitleCleaning.ParenthesisedTitleExample | app.py:36 | a title ending in `(digits)` loses that part instead of the year: `"\n 1.\n A (1)\n(2)\n"` cleans to `"A(2)"` |
| TitleCleaning.CleanTitles | app.py:32-37 | the loop yields one cleaned title per cell, in order |
| Movies.ParseEachOk | app.py:24 | a successful comprehension parses every text, position by position |
| Movies.ParseEachErr | app.py:28 | a failed comprehension names the first text that does not parse, after texts that all parse |
| Movies.ZipAt | app.py:39-42 | row `i` holds entry `i` of every column |
| Movies.ScrapeOk | app.py:22-42 | the table is built exactly when every rating and year parses and all inputs have the title count; row `i` is then cleaned title `i`, year `i`, director `i`, rating `i` |
| Movies.ScrapeErr | app.py:24-42 | the error is the first bad rating, else the first bad year, else the first column whose length differs, in assignment order |
| Movies.MovieFrame.constructor | app.py:39 | a table holding only the titles |
| Movies.MovieFrame.SetReleaseYears | app.py:40 | the column is assigned exactly when its length is the row count; otherwise nothing changes; other columns never change |
| Movies.MovieFrame.SetDirectors | app.py:41 | likewise for the directors |
| Movies.MovieFrame.SetRatings | app.py:42 | likewise for the ratings |
| Movies.GetData | app.py:22-44 | fails with `Scrape`'s error, or returns a new complete table whose rows are `Scrape`'s |
| Decades.Decade | app.py:64 | a decade is a multiple of 10, at most the year and within 10 below it |
| Decades.DecadeUnique | app.py:64 | that multiple is unique, so negative years fall as `//` puts them |
| Decades.DecadeIdempotent | app.py:64 | the decade of a decade is itself |
| Decades.DecadeMonotone | app.py:64 | later years never fall in earlier decades |
| Decades.DecadeColumnIdempotent | app.py:64 | the decade of every entry of the decade column is that entry itself, so mapping `Decade` over the column a second time returns it unchanged |
| Movies.MovieFrame.AddDecadeColumn | app.py:64 | the decade column is the decade of each release year; no other column changes |
| Grouping.GroupKeysSpec | app.py:66 | the group keys are strictly ascending and are exactly the keys present |
| Grouping.CountPositive | app.py:69 | a key's group is non-empty exactly when the key occurs |
| Grouping.CountIsMultiplicity | app.py:69 | a group's size is the key's multiplicity |
| Grouping.Select | app.py:66 | a group has one value per occurrence of its key |
| Grouping.SelectMembers | app.py:66 | a value is in the group of a key exactly when some row holding that key carries it |
| Grouping.SelectBounds | app.py:66 | bounds on the values at a key's positions bound its group |
| Grouping.MeanBounds | app.py:66 | a mean lies between any bounds of its values |
| Grouping.CountsSumAll | app.py:69 | over a strictly ascending list of keys covering every row, the group sizes add up to the row count |
| Summary.MatchesOne | app.py:72 | with strictly ascending keys on the right, a left row of the merge meets exactly its own key |
| Summary.SummarizeRows | app.py:66-73 | merging the mean table with the count table pairs each decade's mean with its count |
| Summary.SummaryKeys | app.py:66-73 | the summary has one row per distinct decade, ascending, covering every decade present |
| Summary.SummaryRow | app.py:66-73 | each row's count is the number of movies in its decade, never zero, and its rating is the mean of theirs |
| Summary.SummaryMeanBounds | app.py:66 | each decade's mean lies between any bounds of its movies' ratings, so between their minimum and maximum |
| Summary.SummaryCountsSum | app.py:69 | the counts add up to the number of movies |
| Summary.SummaryDecadesOfYears | app.py:64-69 | over the decade column every row is the decade of some movie's year |
| Summary.AvgRatingPerDecades | app.py:63-75 | writes the decade column into the table and returns the summary of it |
| Summary.PercentAt | app.py:129 | each percentage is `count * 100 / total count` and is positive |
| Summary.PercentsSum | app.py:129 | the percentages of a non-empty summary add up to exactly 100 |
| Summary.PercentageMoviesByDecades | app.py:125-129 | the summary with positive counts and its percentage column |
| Sorting.SortPermutes | app.py:154 | sorting only reorders |
| Sorting.SortSorted | app.py:154 | the sorted table ranks each row before or with every later one |
| Sorting.SortStable | app.py:154 | rows that rank together keep their order |
| Seqs.Take | app.py:154 | the `n`-row cut: `min(n, len)` rows from the front, none for `n <= 0` |
| Ranking.SortOfSorted | app.py:154 | sorting an already sorted table changes nothing |
| Ranking.TopNIsPrefix | app.py:154 | the top `n` is the first `n` rows of the table sorted by rating descending and year ascending |
| Ranking.TopNLength | app.py:154 | the top `n` has `min(n, len)` rows, none for `n <= 0` |
| Ranking.TopNSorted | app.py:154 | ratings never increase down the list, and equal ratings list the older movie first |
| Ranking.TopNSplit | app.py:154 | kept and omitted rows together are the table, and no omitted row ranks before a kept one |
| Ranking.TopNStable | app.py:154 | movies with equal rating and year keep their table order |
| Ranking.TopNTieExample | app.py:154 | of ratings 9.3 (1994), 9.2 (1972) and 9.2 (1994), the top two are the first two |
| Ranking.YearCountsSpec | app.py:179-180 | each year of the table is listed once, ascending, with its positive number of movies |
| Ranking.YearCountsTotal | app.py:179-180 | the counts over all years add up to the number of movies |
| Seqs.Head | app.py:185 | `head(n)`: the first `n` rows, or all but the last `-n` when `n` is negative |
| Ranking.YearRankingSpec | app.py:179-186 | the ranking lists distinct years with their counts, more movies first and the later year first on ties, with `head(n)`'s number of rows |
| Ranking.YearRankingCut | app.py:179-186 | every year is in the full ranking, and a year cut by `head` ranks after every year kept |

## Left out

- The HTTP request, the BeautifulSoup selection and the plotly and Dash code (figures, layout, callbacks, start-up) are not modelled. The scraped texts are inputs: title cells, credit texts, rating texts, year spans.
- Rounding the mean to two decimals (line 66) and floating-point division (line 129) are left out. Means and percentages are exact.
- Numbers.ParseTenths: accepts only the shapes IMDb prints, which are digits with at most one decimal (`"9.3"`, `"9."`, `"9"`, `".3"`). Python's `float` also accepts signs, exponents, `inf`, `nan`, `_` and more decimals.
- Numbers.ParseInt: digits are ASCII only, while Python's `int` also reads other Unicode decimal digits. Python's limit on the number of digits `int` converts is not modelled.
- TitleCleaning.MatchEnd: `\d` is ASCII digits only, while Python's `\d` on `str` also matches other Unicode digits.
- TitleCleaning.CleanTitles: the loop body is the call `CleanTitle`, which holds lines 35-37 as one function.
- A page element without a `title` attribute or a `span` (an `AttributeError` in lines 23 and 28) is not modelled. A rating element with no contents (an `IndexError` in line 24) is not modelled either.
- Movies.MovieFrame.SetReleaseYears, Movies.MovieFrame.SetDirectors and Movies.MovieFrame.SetRatings do not model pandas' special case for an empty title list. There, assigning a non-empty column re-indexes the table instead of raising. The model reports a length mismatch.
- Ranking.TopN: for `n` at least the row count, pandas' `nlargest` may reorder rows of equal rating with an unstable sort. The model keeps the stable order, which every smaller `n` has.
- Line 195 re-sorts the pie labels apart from their values, which pairs labels with the wrong counts. That is chart code and is not modelled.
- Behaviour at the edges, as `app.py` and pandas have it:
  - For `n <= 0`, `top_n` returns no rows, as `nlargest` does.
  - The year ranking returns no rows for `n == 0`. For a negative `n`, `head(n)` drops the last `-n` rows, so the ranking keeps all but its last `-n` years.
  - The summary of an empty table is empty.
  - A column of the wrong length fails, as pandas does.
- TitleCleaning.CleanCell: promises the exact title only for a title that does not end in `)`. Line 36 also matches a title's own trailing `(digits)` followed by the newline of the cell, so such a title loses that part and keeps its year glued on (`TitleCleaning.ParenthesisedTitleExample`). The model reproduces this behaviour.
