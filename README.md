# Review sampling of the app-review analysis notebook

The notebook `agent2.py` analyses mobile-app store reviews kept in a SQLite
table `dataset` with columns `app`, `content` and `score`. Its one piece of
logic of its own is the tool `fetch_reviews`, which the language-model agents
call to obtain a sample of reviews. This project models that tool and proves
what it returns.

`fetch_reviews(min_rating, max_rating, max_reviews=30000, min_words_in_review=10)` works in three stages:

1. the SQL query keeps the rows with `min_rating <= score <= max_rating` and
   non-NULL `content`, in random order;
2. a `for` loop over the fetched rows skips (`continue`) each row whose
   content has fewer than `min_words_in_review` words, as counted by
   `len(content.split())`, and appends a `Review(app, content, score)` for
   the others;
3. the list is cut with the Python slice `reviews[:max_reviews]`.

Files:

- `wrappers.dfy` (module `Wrappers`): `Option`, for the nullable `content`
  column, and `Result`, for a call that returns a value or raises an error.
- `words.dfy` (module `Words`): word counting as done by Python's
  no-argument `str.split()`. `IsSpace` is the set of characters for which
  `str.isspace()` holds (U+0009 to U+000D, U+001C to U+0020, U+0085, U+00A0,
  U+1680, U+2000 to U+200A, U+2028, U+2029, U+202F, U+205F, U+3000). `Split`
  scans the string by position: it skips a run of whitespace (`SpaceRun`),
  takes the run of non-whitespace that follows (`WordRun`), and repeats.
  `WordPosition` shows that every word it returns is a maximal run, lying
  between whitespace or the ends of the string. `WordCount` counts the
  positions where a word begins, and its contract says this equals
  `len(s.split())`.
- `reviews.dfy` (module `Reviews`): the `Row` of the table and the `Review`
  record (agent2.py:73-77), the query filter `Where`, the loop `FetchReviews`,
  and the Python slice `SliceTo`. It also holds the reference selection
  `Selected`: one pass that filters the table by `Keep` and turns each kept
  row into its `Review`. `Fetched` is `SliceTo(Selected(...), max_reviews)`,
  that is, `Take(Filter(Keep, rows), max_reviews)`: the list `fetch_reviews`
  returns when the query runs.

The table is given as a sequence of rows. Its order is the order in which
`ORDER BY RANDOM()` returns the rows, so every statement below holds for
every order the database might pick. `FetchReviews` first binds the two
rating bounds as query parameters; sqlite3 raises `OverflowError` for a
bound outside the signed 64-bit range, and the model returns
`Failure(IntegerOverflow)` then. Otherwise it runs the query as `Where`, the
SQL engine's part, and the loop exactly as the source does: a `for` loop, a
`continue` for short reviews, and an append for the rest. The method is
proved to return `Success(Fetched(...))` in that case. Every property of the
result is proved as a lemma about `Fetched`.

Two points where the code and its description differ. In both, the model
follows the code:

- The docstring says both rating bounds lie "between 1 and 5"
  (agent2.py:107-108). The code does not check this, so the model takes any
  integers (up to the 64-bit limit sqlite3 imposes on query parameters).
- The result is described as holding at most `max_reviews` entries. That is
  true only for `max_reviews >= 0`. For a negative value, Python's slice
  drops that many entries from the end instead (`FetchedNegativeLimit`).

## Model

| member | source | states |
|---|---|---|
| `Words.SpaceRun` | agent2.py:133 | the result is the end of the whitespace run starting at `i`: everything in between is whitespace, and what follows is not whitespace or is the end of the content |
| `Words.WordRun` | agent2.py:133 | the result is the end of the non-whitespace run starting at `i`: nothing in between is whitespace, and what follows is whitespace or is the end of the content |
| `Words.SplitFrom` | agent2.py:133 | every element `content.split()` returns is a non-empty string without whitespace |
| `Words.WordPosition` | agent2.py:133 | every element of `content.split()` occurs in `content` as a maximal run: whitespace or the end of the content lies on either side of it |
| `Words.SplitFromLength` | agent2.py:133 | from a word boundary on, the number of words `split()` finds equals the number of positions where a word begins (a non-whitespace character that is first or follows whitespace) |
| `Words.WordCount` | agent2.py:133 | the count of word beginnings is `len(content.split())` |
| `Words.SplitKeepsNonSpace` | agent2.py:133 | gluing the words of `content.split()` back together gives exactly the non-whitespace characters of `content`, in order |
| `Words.WordCountZeroIffBlank` | agent2.py:133-135 | an empty or all-whitespace content has 0 words, and only such content has 0 words |
| `Reviews.Matches` | agent2.py:123-124 | a row meets `score >= ? AND score <= ? AND content IS NOT NULL`; no row meets it when `min_rating > max_rating` |
| `Reviews.Where` | agent2.py:120-127 | every row the query returns has `min_rating <= score <= max_rating` and non-NULL content; the query returns no more rows than the table holds |
| `Reviews.LongEnough` | agent2.py:130-136 | the loop's effect on the fetched rows: no more reviews than rows, and each review has at least `min_words_in_review` words; `PipelineIsFilter` pins down exactly which reviews |
| `Reviews.SliceTo` | agent2.py:138 | `reviews[:n]` is a prefix of `reviews`, of length `min(n, len)` for `n >= 0` and `max(0, len + n)` for `n < 0` |
| `Reviews.PipelineIsFilter` | agent2.py:120-136 | running the query and then the word-count loop yields exactly the reviews of the rows `Keep` accepts (score in range, content present, enough words), in table order |
| `Reviews.FetchReviews` | agent2.py:97-138 | a rating bound outside the signed 64-bit range raises `OverflowError` when bound at agent2.py:127; otherwise the returned list is `Fetched`: the first `max_reviews` reviews of the rows `Keep` accepts, in query order, with Python slice semantics |
| `Reviews.SelectedInRange` | agent2.py:122-127 | every review the selection keeps has `min_rating <= score <= max_rating` |
| `Reviews.SelectedLongEnough` | agent2.py:133-135 | every review the selection keeps has at least `min_words_in_review` words |
| `Reviews.SelectedFromTable` | agent2.py:122-136 | the rows the selected reviews were built from are table rows with non-NULL content, each used at most as often as it occurs in the table |
| `Reviews.FetchedScoresInRange` | agent2.py:122-127 | every returned review has `min_rating <= score <= max_rating` |
| `Reviews.FetchedLongEnough` | agent2.py:133-135 | every returned review's content has at least `min_words_in_review` words |
| `Reviews.FetchedFromTable` | agent2.py:132-138 | each returned review copies `app`, `content` and `score` from a table row whose content is not NULL; as a multiset, the returned reviews are contained in the table's rows, so nothing is invented or duplicated |
| `Reviews.FetchedCount` | agent2.py:138 | for `max_reviews >= 0` the result has at most `max_reviews` entries and is the first `min(max_reviews, n)` selected reviews; when at most `max_reviews` rows are selected, all of them are returned |
| `Reviews.FetchedNegativeLimit` | agent2.py:138 | for `max_reviews < 0` the result is the selection without its last `-max_reviews` entries |
| `Reviews.FetchedIncludesEarlyRows` | agent2.py:130-138 | a row that passes both filters, with fewer than `max_reviews` accepted rows before it, is in the result, at the position given by the number of accepted rows before it |
| `Reviews.FetchedEmpty` | agent2.py:122-138 | if `min_rating > max_rating` or `max_reviews == 0`, the result is empty |

## Left out

- The SQLite connection, cursor and `fetchall` (agent2.py:116-132) are replaced by the table passed in as a sequence of rows. The hard-coded database path is not modelled.
- `ORDER BY RANDOM()`: the rows come in the order of the given sequence. The model does not choose that order; the lemmas hold for every order.
- csv_to_db.py (CSV loading through pandas and SQLAlchemy) is pure I/O through libraries and is not part of this model.
- The language-model agents, their result schemas, prompts and `run_sync` calls (agent2.py:166-364) are calls into an external framework. So is the prompt that concatenates their outputs (agent2.py:320-335).
- The `Dependencies` holder (agent2.py:160-162), the notebook cells, API-key loading, `nest_asyncio`, printing and `textwrap` output are left out. None of them holds logic.
- Integer widths: the rating bounds are checked against the signed 64-bit range that sqlite3 can bind (`FitsSqliteInteger`). `max_reviews` and `min_words_in_review` are used only by Python, whose `int` is unbounded like Dafny's. SQLite's comparison of mixed-type column values is not modelled: every score is an integer.
