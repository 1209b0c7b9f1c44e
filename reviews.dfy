/** The review-sampling tool `fetch_reviews` of the app-review analysis
    notebook. The `dataset` table is a sequence of rows, listed in the order
    in which `ORDER BY RANDOM()` happens to return them; the query keeps the
    rows whose score lies in the requested range and whose content is not
    NULL, a loop then drops the reviews with too few words, and the list is
    cut with a Python slice `reviews[:max_reviews]`. */
module Reviews {
  import opened Wrappers
  import opened Words

  /** A row of the `dataset` table; `content` may be NULL. */
  datatype Row = Row(app: string, content: Option<string>, score: int)

  /** The `Review` record handed back to the caller. */
  datatype Review = Review(app: string, content: string, score: int)

  /** The error `fetch_reviews` raises instead of returning a list. */
  datatype FetchError =
    /** sqlite3 cannot bind a query parameter outside the signed 64-bit
        range: "Python int too large to convert to SQLite INTEGER". */
    | IntegerOverflow

  const MinInt64: int := -0x8000_0000_0000_0000
  const MaxInt64: int := 0x7FFF_FFFF_FFFF_FFFF

  /** Whether sqlite3 can bind `n` as an SQLite INTEGER parameter. */
  predicate FitsSqliteInteger(n: int) {
    MinInt64 <= n <= MaxInt64
  }

  /** The query's `WHERE score >= ? AND score <= ? AND content IS NOT NULL`.
      No row matches an empty rating range. */
  predicate Matches(row: Row, minRating: int, maxRating: int)
    ensures Matches(row, minRating, maxRating) ==> minRating <= maxRating
  {
    minRating <= row.score && row.score <= maxRating && row.content.Some?
  }

  /** The rows the query returns, in table order. */
  function Where(table: seq<Row>, minRating: int, maxRating: int): (rows: seq<Row>)
    ensures forall k :: 0 <= k < |rows| ==> Matches(rows[k], minRating, maxRating)
    ensures |rows| <= |table|
  {
    if table == [] then []
    else
      var rest := Where(table[1..], minRating, maxRating);
      if Matches(table[0], minRating, maxRating) then [table[0]] + rest else rest
  }

  predicate AllHaveContent(rows: seq<Row>) {
    forall k :: 0 <= k < |rows| ==> rows[k].content.Some?
  }

  /** The loop's effect on the fetched rows: each row whose content has at
      least `minWords` words becomes a `Review`, the others are skipped. No
      more reviews come out than rows went in, each with enough words. */
  function LongEnough(rows: seq<Row>, minWords: int): (reviews: seq<Review>)
    requires AllHaveContent(rows)
    ensures |reviews| <= |rows|
    ensures forall k :: 0 <= k < |reviews| ==> WordCount(reviews[k].content) >= minWords
  {
    if rows == [] then []
    else
      var row := rows[0];
      var content := row.content.value;
      var rest := LongEnough(rows[1..], minWords);
      if WordCount(content) < minWords then rest
      else
        assert forall k :: 1 <= k <= |rest| ==> ([Review(row.app, content, row.score)] + rest)[k] == rest[k - 1];
        [Review(row.app, content, row.score)] + rest
  }

  lemma {:induction false} LongEnoughAppend(rows: seq<Row>, row: Row, minWords: int)
    requires AllHaveContent(rows) && row.content.Some?
    ensures AllHaveContent(rows + [row])
    ensures LongEnough(rows + [row], minWords) == LongEnough(rows, minWords) + LongEnough([row], minWords)
    decreases |rows|
  {
    if rows == [] {
      assert rows + [row] == [row];
    } else {
      assert (rows + [row])[1..] == rows[1..] + [row];
      LongEnoughAppend(rows[1..], row, minWords);
    }
  }

  /** The `Review` built from a row with content, copying every field. */
  function ToReview(row: Row): Review
    requires row.content.Some?
  {
    Review(row.app, row.content.value, row.score)
  }

  /** The row a review was built from. */
  function Source(review: Review): Row {
    Row(review.app, Some(review.content), review.score)
  }

  function Sources(reviews: seq<Review>): seq<Row> {
    seq(|reviews|, k requires 0 <= k < |reviews| => Source(reviews[k]))
  }

  /** A row that the whole selection rule accepts. */
  predicate Keep(row: Row, minRating: int, maxRating: int, minWords: int) {
    Matches(row, minRating, maxRating) && WordCount(row.content.value) >= minWords
  }

  /** The reference selection, in one pass: the table filtered by `Keep`,
      each row turned into its `Review`. */
  function Selected(table: seq<Row>, minRating: int, maxRating: int, minWords: int): seq<Review> {
    if table == [] then []
    else
      (if Keep(table[0], minRating, maxRating, minWords) then [ToReview(table[0])] else [])
      + Selected(table[1..], minRating, maxRating, minWords)
  }

  function Min(a: int, b: int): int { if a <= b then a else b }
  function Max(a: int, b: int): int { if a <= b then b else a }

  /** Python's `s[:n]`: the first `n` entries when `n >= 0`, and all but the
      last `-n` entries when `n < 0`; either bound is clipped to the list. */
  function SliceTo<T>(s: seq<T>, n: int): (r: seq<T>)
    ensures |r| <= |s| && r == s[..|r|]
    ensures n >= 0 ==> |r| == Min(n, |s|)
    ensures n < 0 ==> |r| == Max(0, |s| + n)
  {
    if n >= 0 then (if n <= |s| then s[..n] else s)
    else if |s| + n >= 0 then s[..|s| + n]
    else []
  }

  /** What `fetch_reviews` returns when its rating bounds can be bound as
      query parameters, as a function of the table in query order. */
  function Fetched(table: seq<Row>, minRating: int, maxRating: int, maxReviews: int, minWords: int): seq<Review> {
    SliceTo(Selected(table, minRating, maxRating, minWords), maxReviews)
  }

  /** Running the query and then the word-count loop selects exactly the
      rows `Keep` accepts, in order. */
  lemma {:induction false} PipelineIsFilter(table: seq<Row>, minRating: int, maxRating: int, minWords: int)
    ensures LongEnough(Where(table, minRating, maxRating), minWords) == Selected(table, minRating, maxRating, minWords)
    decreases |table|
  {
    if table != [] {
      PipelineIsFilter(table[1..], minRating, maxRating, minWords);
      var rest := Where(table[1..], minRating, maxRating);
      if Matches(table[0], minRating, maxRating) {
        assert ([table[0]] + rest)[1..] == rest;
      }
    }
  }

  /** `fetch_reviews(min_rating, max_rating, max_reviews, min_words_in_review)`
      over `table`, the `dataset` table in the order the query returns it.
      Binding a rating bound outside the signed 64-bit range raises before
      any row is read. */
  method FetchReviews(table: seq<Row>, minRating: int, maxRating: int, maxReviews: int := 30000, minWords: int := 10)
    returns (result: Result<seq<Review>, FetchError>)
    ensures result == if FitsSqliteInteger(minRating) && FitsSqliteInteger(maxRating)
      then Success(Fetched(table, minRating, maxRating, maxReviews, minWords))
      else Failure(IntegerOverflow)
  {
    if !FitsSqliteInteger(minRating) || !FitsSqliteInteger(maxRating) {
      return Failure(IntegerOverflow);
    }
    var rows := Where(table, minRating, maxRating);
    var reviews: seq<Review> := [];
    for i := 0 to |rows|
      invariant reviews == LongEnough(rows[..i], minWords)
    {
      var row := rows[i];
      assert rows[..i + 1] == rows[..i] + [row];
      LongEnoughAppend(rows[..i], row, minWords);
      var content := row.content.value;
      var wordCount := WordCount(content);
      if wordCount < minWords {
        continue;
      }
      reviews := reviews + [Review(row.app, content, row.score)];
    }
    assert rows[..|rows|] == rows;
    PipelineIsFilter(table, minRating, maxRating, minWords);
    result := Success(SliceTo(reviews, maxReviews));
  }

  lemma {:induction false} SelectedAppend(a: seq<Row>, b: seq<Row>, minRating: int, maxRating: int, minWords: int)
    ensures Selected(a + b, minRating, maxRating, minWords)
         == Selected(a, minRating, maxRating, minWords) + Selected(b, minRating, maxRating, minWords)
    decreases |a|
  {
    if a == [] {
      assert a + b == b;
    } else {
      assert (a + b)[1..] == a[1..] + b;
      SelectedAppend(a[1..], b, minRating, maxRating, minWords);
    }
  }

  /** Every selected review has its score in the rating range. */
  lemma {:induction false} SelectedInRange(table: seq<Row>, minRating: int, maxRating: int, minWords: int)
    ensures forall k :: 0 <= k < |Selected(table, minRating, maxRating, minWords)| ==>
      minRating <= Selected(table, minRating, maxRating, minWords)[k].score <= maxRating
    decreases |table|
  {
    if table != [] {
      SelectedInRange(table[1..], minRating, maxRating, minWords);
      var rest := Selected(table[1..], minRating, maxRating, minWords);
      if Keep(table[0], minRating, maxRating, minWords) {
        assert forall k :: 1 <= k <= |rest| ==> ([ToReview(table[0])] + rest)[k] == rest[k - 1];
      }
    }
  }

  /** Every selected review has at least `minWords` words. */
  lemma {:induction false} SelectedLongEnough(table: seq<Row>, minRating: int, maxRating: int, minWords: int)
    ensures forall k :: 0 <= k < |Selected(table, minRating, maxRating, minWords)| ==>
      WordCount(Selected(table, minRating, maxRating, minWords)[k].content) >= minWords
    decreases |table|
  {
    if table != [] {
      SelectedLongEnough(table[1..], minRating, maxRating, minWords);
      var rest := Selected(table[1..], minRating, maxRating, minWords);
      if Keep(table[0], minRating, maxRating, minWords) {
        assert forall k :: 1 <= k <= |rest| ==> ([ToReview(table[0])] + rest)[k] == rest[k - 1];
      }
    }
  }

  /** The rows the selected reviews were built from, field for field, are
      rows of the table with non-NULL content, none used more often than it
      occurs. */
  lemma {:induction false} SelectedFromTable(table: seq<Row>, minRating: int, maxRating: int, minWords: int)
    ensures multiset(Sources(Selected(table, minRating, maxRating, minWords))) <= multiset(table)
    decreases |table|
  {
    if table != [] {
      SelectedFromTable(table[1..], minRating, maxRating, minWords);
      var head := if Keep(table[0], minRating, maxRating, minWords) then [ToReview(table[0])] else [];
      var rest := Selected(table[1..], minRating, maxRating, minWords);
      assert Sources(head + rest) == Sources(head) + Sources(rest);
      assert table == [table[0]] + table[1..];
      if head != [] {
        assert Sources(head) == [table[0]];
      }
      assert multiset(Sources(head)) <= multiset([table[0]]);
    }
  }

  /** Every returned review has `min_rating <= score <= max_rating`. */
  lemma FetchedScoresInRange(table: seq<Row>, minRating: int, maxRating: int, maxReviews: int, minWords: int)
    ensures forall k :: 0 <= k < |Fetched(table, minRating, maxRating, maxReviews, minWords)| ==>
      minRating <= Fetched(table, minRating, maxRating, maxReviews, minWords)[k].score <= maxRating
  {
    var sel := Selected(table, minRating, maxRating, minWords);
    var result := Fetched(table, minRating, maxRating, maxReviews, minWords);
    assert forall k :: 0 <= k < |result| ==> result[k] == sel[k];
    SelectedInRange(table, minRating, maxRating, minWords);
  }

  /** Every returned review has at least `min_words_in_review` words. */
  lemma FetchedLongEnough(table: seq<Row>, minRating: int, maxRating: int, maxReviews: int, minWords: int)
    ensures forall k :: 0 <= k < |Fetched(table, minRating, maxRating, maxReviews, minWords)| ==>
      WordCount(Fetched(table, minRating, maxRating, maxReviews, minWords)[k].content) >= minWords
  {
    var sel := Selected(table, minRating, maxRating, minWords);
    var result := Fetched(table, minRating, maxRating, maxReviews, minWords);
    assert forall k :: 0 <= k < |result| ==> result[k] == sel[k];
    SelectedLongEnough(table, minRating, maxRating, minWords);
  }

  /** Every returned review is a copy of a table row with non-NULL content;
      no row is invented and none is returned more often than it occurs. */
  lemma FetchedFromTable(table: seq<Row>, minRating: int, maxRating: int, maxReviews: int, minWords: int)
    ensures multiset(Sources(Fetched(table, minRating, maxRating, maxReviews, minWords))) <= multiset(table)
  {
    var sel := Selected(table, minRating, maxRating, minWords);
    var result := Fetched(table, minRating, maxRating, maxReviews, minWords);
    SelectedFromTable(table, minRating, maxRating, minWords);
    assert sel == result + sel[|result|..];
    assert Sources(sel) == Sources(result) + Sources(sel[|result|..]);
  }

  /** With a non-negative `max_reviews` the result holds the first
      `max_reviews` selected reviews, or all of them when there are fewer. */
  lemma FetchedCount(table: seq<Row>, minRating: int, maxRating: int, maxReviews: int, minWords: int)
    requires maxReviews >= 0
    ensures var sel := Selected(table, minRating, maxRating, minWords);
      var result := Fetched(table, minRating, maxRating, maxReviews, minWords);
      |result| <= maxReviews && result == sel[..Min(maxReviews, |sel|)] &&
      (|sel| <= maxReviews ==> result == sel)
  {
  }

  /** A negative `max_reviews` does not limit the count: the slice drops that
      many reviews from the end of the selection. */
  lemma FetchedNegativeLimit(table: seq<Row>, minRating: int, maxRating: int, maxReviews: int, minWords: int)
    requires maxReviews < 0
    ensures var sel := Selected(table, minRating, maxRating, minWords);
      Fetched(table, minRating, maxRating, maxReviews, minWords) == sel[..Max(0, |sel| + maxReviews)]
  {
  }

  /** A row that passes both filters is returned whenever fewer than
      `max_reviews` rows before it passed: a rejected row is skipped and
      the loop goes on. Its place in the result is the number of accepted
      rows before it. */
  lemma FetchedIncludesEarlyRows(table: seq<Row>, minRating: int, maxRating: int, maxReviews: int, minWords: int, i: nat)
    requires i < |table| && Keep(table[i], minRating, maxRating, minWords)
    requires |Selected(table[..i], minRating, maxRating, minWords)| < maxReviews
    ensures var k := |Selected(table[..i], minRating, maxRating, minWords)|;
      var result := Fetched(table, minRating, maxRating, maxReviews, minWords);
      k < |result| && result[k] == ToReview(table[i])
  {
    assert table == table[..i] + ([table[i]] + table[i + 1..]);
    SelectedAppend(table[..i], [table[i]] + table[i + 1..], minRating, maxRating, minWords);
    SelectedAppend([table[i]], table[i + 1..], minRating, maxRating, minWords);
  }

  /** An empty rating range or `max_reviews == 0` returns nothing. */
  lemma {:induction false} FetchedEmpty(table: seq<Row>, minRating: int, maxRating: int, maxReviews: int, minWords: int)
    requires minRating > maxRating || maxReviews == 0
    ensures Fetched(table, minRating, maxRating, maxReviews, minWords) == []
    decreases |table|
  {
    if minRating > maxRating && table != [] {
      FetchedEmpty(table[1..], minRating, maxRating, maxReviews, minWords);
    }
  }
}
