/**
  * `load_and_clean_data` as a whole: both cleaning sequences, then a fresh
  * `game_id` for every surviving row. The file reads and `uuid4()` are
  * outside the model; the ids arrive as a sequence, one per row consumed.
  */
module Pipeline {
  import opened Wrappers
  import opened Frame
  import opened Cleaning

  /** A row with the `game_id` column added. */
  datatype Identified<T> = Identified(gameId: string, row: T)

  /** Lines 47-48: the i-th row gets the i-th id. */
  function WithIds<T>(rows: seq<T>, ids: seq<string>): (r: seq<Identified<T>>)
    requires |ids| == |rows|
    ensures |r| == |rows|
  {
    seq(|rows|, i requires 0 <= i < |rows| => Identified(ids[i], rows[i]))
  }

  function GameIds<T>(rows: seq<Identified<T>>): (r: seq<string>) {
    MapRows(rows, (x: Identified<T>) => x.gameId)
  }

  function RowsOf<T>(rows: seq<Identified<T>>): (r: seq<T>) {
    MapRows(rows, (x: Identified<T>) => x.row)
  }

  /** The two cleaned tables, each row with its `game_id`. */
  datatype Cleaned = Cleaned(sales: seq<Identified<SalesRow>>, reviews: seq<Identified<Review>>)

  /**
    * The result of `load_and_clean_data` once both files are read. The sales
    * rows take the first ids of `ids`, the ratings rows the next ones;
    * a sales error is raised before the ratings are looked at.
    */
  function LoadAndClean(rawSales: seq<SalesRow>, rawGames: seq<RawReview>, ids: seq<string>): (r: Result<Cleaned, CleanError>)
    requires |rawSales| + |rawGames| <= |ids|
  {
    var sales :- CleanSales(rawSales);
    var reviews :- CleanReviews(rawGames);
    Ok(Cleaned(WithIds(sales, ids[..|sales|]), WithIds(reviews, ids[|sales|..|sales| + |reviews|])))
  }

  /** Lines 47-48, one id after another. */
  method AssignIds<T>(rows: seq<T>, ids: seq<string>, from: nat) returns (out: seq<Identified<T>>)
    requires from + |rows| <= |ids|
    ensures out == WithIds(rows, ids[from..from + |rows|])
  {
    out := [];
    var i := 0;
    while i < |rows|
      invariant 0 <= i <= |rows|
      invariant out == WithIds(rows[..i], ids[from..from + i])
    {
      out := out + [Identified(ids[from + i], rows[i])];
      i := i + 1;
    }
    assert rows[..i] == rows;
  }

  /** Lines 19-30, step by step on the sales frame, including the loop over `sales_cols`. */
  method CleanSalesFrame(raw: seq<SalesRow>) returns (r: Result<seq<SalesRow>, CleanError>)
    ensures r == CleanSales(raw)
  {
    var sales := Filter(raw, HasSalesKeys);
    sales := DropDuplicates(sales);
    var years := TryMap(sales, WithYear);
    if years.Err? {
      return Err(years.error);
    }
    var withYears := years.value;
    sales := Filter(withYears, HasYear);
    ghost var dated := sales;
    for k := 0 to |SalesColumns|
      invariant sales == CoerceFigures(dated, k)
    {
      var col := SalesColumns[k];
      sales := MapRows(sales, (x: SalesRow) => CoerceFigure(x, col));
    }
    sales := Filter(sales, HasFigures);
    sales := MapRows(sales, NormalizeSales);
    assert sales == FinishSales(withYears);
    return Ok(sales);
  }

  /** Lines 32-44, step by step on the ratings frame. */
  method CleanGamesFrame(raw: seq<RawReview>) returns (r: Result<seq<Review>, CleanError>)
    ensures r == CleanReviews(raw)
  {
    var ratings := TryMap(raw, WithRating);
    if ratings.Err? {
      return Err(ratings.error);
    }
    var games := Filter(ratings.value, HasReviewKeys);
    games := DropDuplicates(games);
    var withDates := MapRows(games, WithReleaseDate);
    var withCounts := MapRows(withDates, WithReviewCount);
    withCounts := Filter(withCounts, HasDateAndCount);
    var reviews := MapRows(withCounts, NormalizeTitle);
    return Ok(reviews);
  }

  /** `load_and_clean_data` after the reads: clean both frames, then add the ids. */
  method LoadAndCleanData(rawSales: seq<SalesRow>, rawGames: seq<RawReview>, ids: seq<string>)
      returns (r: Result<Cleaned, CleanError>)
    requires |rawSales| + |rawGames| <= |ids|
    ensures r == LoadAndClean(rawSales, rawGames, ids)
    ensures r.Ok? ==> forall y :: y in RowsOf(r.value.sales) ==> IsCleanSalesRow(y)
    ensures r.Ok? ==> forall y :: y in RowsOf(r.value.reviews) ==> IsCleanReview(y)
  {
    var sales :- CleanSalesFrame(rawSales);
    var reviews :- CleanGamesFrame(rawGames);
    var salesRows := AssignIds(sales, ids, 0);
    var reviewRows := AssignIds(reviews, ids, |sales|);
    r := Ok(Cleaned(salesRows, reviewRows));
    CleanRows(rawSales, rawGames, ids);
  }

  /** Every row of a successful run is clean. */
  lemma CleanRows(rawSales: seq<SalesRow>, rawGames: seq<RawReview>, ids: seq<string>)
    requires |rawSales| + |rawGames| <= |ids|
    requires LoadAndClean(rawSales, rawGames, ids).Ok?
    ensures var c := LoadAndClean(rawSales, rawGames, ids).value;
      (forall y :: y in RowsOf(c.sales) ==> IsCleanSalesRow(y))
      && (forall y :: y in RowsOf(c.reviews) ==> IsCleanReview(y))
  {
    var c := LoadAndClean(rawSales, rawGames, ids).value;
    CleanSalesFails(rawSales);
    CleanSalesMeaning(rawSales);
    CleanReviewsFails(rawGames);
    CleanReviewsMeaning(rawGames);
    IdsRoundTrip(CleanSales(rawSales).value, ids[..|CleanSales(rawSales).value|]);
    var n := |CleanSales(rawSales).value|;
    IdsRoundTrip(CleanReviews(rawGames).value, ids[n..n + |CleanReviews(rawGames).value|]);
    forall y | y in RowsOf(c.sales) ensures IsCleanSalesRow(y) {
      var x :| x in rawSales && CleanSalesRow(x) == Some(y);
      var i :| 0 <= i < |rawSales| && rawSales[i] == x;
      CleanSalesRowValue(x);
    }
    forall y | y in RowsOf(c.reviews) ensures IsCleanReview(y) {
      var x :| x in rawGames && CleanReviewRow(x) == Some(y);
      var i :| 0 <= i < |rawGames| && rawGames[i] == x;
      CleanReviewRowMeaning(x);
    }
  }

  /** Adding ids and taking them off again gives back the rows and the ids. */
  lemma IdsRoundTrip<T>(rows: seq<T>, ids: seq<string>)
    requires |ids| == |rows|
    ensures RowsOf(WithIds(rows, ids)) == rows && GameIds(WithIds(rows, ids)) == ids
  {
  }

  /**
    * A run fails exactly when either cleaning sequence raises, with the sales
    * error first; otherwise each table holds its cleaned rows in order.
    */
  lemma LoadAndCleanMeaning(rawSales: seq<SalesRow>, rawGames: seq<RawReview>, ids: seq<string>)
    requires |rawSales| + |rawGames| <= |ids|
    ensures LoadAndClean(rawSales, rawGames, ids).Err? <==> CleanSales(rawSales).Err? || CleanReviews(rawGames).Err?
    ensures CleanSales(rawSales).Err? ==> LoadAndClean(rawSales, rawGames, ids) == Err(CleanSales(rawSales).error)
    ensures LoadAndClean(rawSales, rawGames, ids).Ok? ==>
      var c := LoadAndClean(rawSales, rawGames, ids).value;
      RowsOf(c.sales) == CleanSales(rawSales).value && RowsOf(c.reviews) == CleanReviews(rawGames).value
  {
    if LoadAndClean(rawSales, rawGames, ids).Ok? {
      var n := |CleanSales(rawSales).value|;
      IdsRoundTrip(CleanSales(rawSales).value, ids[..n]);
      IdsRoundTrip(CleanReviews(rawGames).value, ids[n..n + |CleanReviews(rawGames).value|]);
    }
  }

  /** A successful run, spelled out: both cleaned tables with consecutive ids. */
  lemma LoadAndCleanOk(rawSales: seq<SalesRow>, rawGames: seq<RawReview>, ids: seq<string>)
    requires |rawSales| + |rawGames| <= |ids|
    requires LoadAndClean(rawSales, rawGames, ids).Ok?
    ensures CleanSales(rawSales).Ok? && CleanReviews(rawGames).Ok?
    ensures var n := |CleanSales(rawSales).value|;
      var m := |CleanReviews(rawGames).value|;
      LoadAndClean(rawSales, rawGames, ids).value
        == Cleaned(WithIds(CleanSales(rawSales).value, ids[..n]), WithIds(CleanReviews(rawGames).value, ids[n..n + m]))
  {
  }

  /**
    * Every row of either table gets its own id: the ids used are the first
    * ones supplied, sales rows first, so distinct fresh ids stay distinct
    * within each table and across the two.
    */
  lemma IdsDistinct(rawSales: seq<SalesRow>, rawGames: seq<RawReview>, ids: seq<string>)
    requires |rawSales| + |rawGames| <= |ids|
    requires LoadAndClean(rawSales, rawGames, ids).Ok?
    ensures var c := LoadAndClean(rawSales, rawGames, ids).value;
      && GameIds(c.sales) + GameIds(c.reviews) == ids[..|c.sales| + |c.reviews|]
      && (NoDuplicates(ids) ==> NoDuplicates(GameIds(c.sales) + GameIds(c.reviews)))
  {
    LoadAndCleanOk(rawSales, rawGames, ids);
    TablesIds(CleanSales(rawSales).value, CleanReviews(rawGames).value, ids);
  }

  /** Two tables given consecutive ids use the first ids supplied, all distinct when those are. */
  lemma TablesIds<A, B>(a: seq<A>, b: seq<B>, ids: seq<string>)
    requires |a| + |b| <= |ids|
    ensures var both := GameIds(WithIds(a, ids[..|a|])) + GameIds(WithIds(b, ids[|a|..|a| + |b|]));
      both == ids[..|a| + |b|] && (NoDuplicates(ids) ==> NoDuplicates(both))
  {
    var n := |a|;
    var m := |b|;
    IdsRoundTrip(a, ids[..n]);
    IdsRoundTrip(b, ids[n..n + m]);
    assert ids[..n] + ids[n..n + m] == ids[..n + m];
    if NoDuplicates(ids) {
      PrefixDistinct(ids, n + m);
    }
  }
}
