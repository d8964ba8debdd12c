/**
  * The `games` table that `setup_sqlite_database` builds from the two
  * cleaned frames: every sales row and every ratings row with its id and
  * title, and a release date looked up among the ratings rows, one record
  * per id.
  */
module Loader {
  import opened Wrappers
  import opened Frame
  import opened Dates
  import opened Cleaning
  import opened Pipeline

  /** A row of the `games` table. */
  datatype GameRecord = GameRecord(gameId: string, title: Option<string>, releaseDate: Option<Date>)

  function GameKey(g: GameRecord): (r: string) {
    g.gameId
  }

  /**
    * Lines 115-116: the release date of the first ratings row with this id,
    * or missing when no ratings row has it.
    */
  function ReleaseDateOf(reviews: seq<Identified<Review>>, id: string): (r: Option<Date>) {
    if reviews == [] then None
    else if reviews[0].gameId == id then reviews[0].row.releaseDate
    else ReleaseDateOf(reviews[1..], id)
  }

  /** Row `i` is the first with this id. */
  predicate FirstWithId(reviews: seq<Identified<Review>>, id: string, i: int) {
    0 <= i < |reviews| && reviews[i].gameId == id && forall j :: 0 <= j < i ==> reviews[j].gameId != id
  }

  /** The lookup finds the first row with the id, and nothing when there is none. */
  lemma {:induction false} ReleaseDateOfMeaning(reviews: seq<Identified<Review>>, id: string)
    ensures (forall i :: 0 <= i < |reviews| ==> reviews[i].gameId != id) ==> ReleaseDateOf(reviews, id).None?
    ensures forall i :: FirstWithId(reviews, id, i) ==> ReleaseDateOf(reviews, id) == reviews[i].row.releaseDate
  {
    if reviews != [] {
      ReleaseDateOfMeaning(reviews[1..], id);
      forall i | FirstWithId(reviews, id, i)
        ensures ReleaseDateOf(reviews, id) == reviews[i].row.releaseDate
      {
        if i > 0 {
          assert reviews[0].gameId != id;
          assert reviews[1..][i - 1] == reviews[i];
          forall j | 0 <= j < i - 1 ensures reviews[1..][j].gameId != id {
            assert reviews[1..][j] == reviews[j + 1];
          }
          assert FirstWithId(reviews[1..], id, i - 1);
        }
      }
      if forall i :: 0 <= i < |reviews| ==> reviews[i].gameId != id {
        assert reviews[0].gameId != id;
        forall i | 0 <= i < |reviews| - 1 ensures reviews[1..][i].gameId != id {
          assert reviews[1..][i] == reviews[i + 1];
        }
      }
    }
  }

  /** Lines 110-117: the sales records (id, Name), then the ratings records (id, Title), each with its looked-up date. */
  function Combined(c: Cleaned): (r: seq<GameRecord>)
    ensures |r| == |c.sales| + |c.reviews|
  {
    MapRows(c.sales, (x: Identified<SalesRow>) => GameRecord(x.gameId, x.row.name, ReleaseDateOf(c.reviews, x.gameId)))
    + MapRows(c.reviews, (x: Identified<Review>) => GameRecord(x.gameId, x.row.title, ReleaseDateOf(c.reviews, x.gameId)))
  }

  /** Line 119: one record per id, the first one. */
  function GamesTable(c: Cleaned): (r: seq<GameRecord>) {
    DropDuplicatesBy(Combined(c), GameKey)
  }

  lemma CombinedKeys(c: Cleaned)
    ensures forall i :: 0 <= i < |Combined(c)| ==> GameKey(Combined(c)[i]) == (GameIds(c.sales) + GameIds(c.reviews))[i]
  {
  }

  /**
    * `game_id` is a key of the games table, and the table holds a record for
    * exactly the ids of the two cleaned frames, so every `sales_data` and
    * `ratings_data` row refers to a game; the record kept for an id is the
    * first combined record with that id.
    */
  lemma GamesTableKeys(c: Cleaned)
    ensures NoDuplicateKeys(GamesTable(c), GameKey)
    ensures forall id :: HasKey(GamesTable(c), GameKey, id) <==> id in GameIds(c.sales) || id in GameIds(c.reviews)
    ensures forall i :: 0 <= i < |GamesTable(c)| ==> IsFirstOfKey(Combined(c), GameKey, GamesTable(c)[i])
  {
    DropDuplicatesKeys(Combined(c), GameKey);
    CombinedKeys(c);
    var all := GameIds(c.sales) + GameIds(c.reviews);
    forall id ensures HasKey(Combined(c), GameKey, id) <==> id in all {
      if id in all {
        var i :| 0 <= i < |all| && all[i] == id;
        assert GameKey(Combined(c)[i]) == id;
      }
    }
  }

  /** With distinct ids, ids are distinct in the combined frame too. */
  lemma CombinedDistinct(c: Cleaned)
    requires NoDuplicates(GameIds(c.sales) + GameIds(c.reviews))
    ensures NoDuplicateKeys(Combined(c), GameKey)
    ensures GamesTable(c) == Combined(c)
  {
    CombinedKeys(c);
    DropDuplicatesNone(Combined(c), GameKey);
  }

  /** The id of sales row `i` sits at `i`, the id of ratings row `j` after all the sales ids. */
  lemma IdsAt(c: Cleaned, i: nat, j: nat)
    requires i < |c.sales| && j < |c.reviews|
    ensures var all := GameIds(c.sales) + GameIds(c.reviews);
      all[i] == c.sales[i].gameId && all[|c.sales| + j] == c.reviews[j].gameId
  {
    assert GameIds(c.sales)[i] == c.sales[i].gameId;
    assert GameIds(c.reviews)[j] == c.reviews[j].gameId;
  }

  /** With distinct ids, no sales id is found among the ratings rows. */
  lemma SalesUndated(c: Cleaned, i: nat)
    requires NoDuplicates(GameIds(c.sales) + GameIds(c.reviews))
    requires i < |c.sales|
    ensures ReleaseDateOf(c.reviews, c.sales[i].gameId).None?
  {
    ReleaseDateOfMeaning(c.reviews, c.sales[i].gameId);
    forall j | 0 <= j < |c.reviews| ensures c.reviews[j].gameId != c.sales[i].gameId {
      IdsAt(c, i, j);
    }
  }

  /** With distinct ids, two ratings rows have different ids. */
  lemma ReviewIdsDistinct(c: Cleaned, k: nat, j: nat)
    requires NoDuplicates(GameIds(c.sales) + GameIds(c.reviews))
    requires k < j < |c.reviews|
    ensures c.reviews[k].gameId != c.reviews[j].gameId
  {
    var n := |c.sales|;
    var all := GameIds(c.sales) + GameIds(c.reviews);
    assert GameIds(c.reviews)[k] == c.reviews[k].gameId && GameIds(c.reviews)[j] == c.reviews[j].gameId;
    assert all[n + k] == c.reviews[k].gameId && all[n + j] == c.reviews[j].gameId;
  }

  /** With distinct ids, each ratings row finds its own date. */
  lemma ReviewsDated(c: Cleaned, j: nat)
    requires NoDuplicates(GameIds(c.sales) + GameIds(c.reviews))
    requires j < |c.reviews|
    ensures ReleaseDateOf(c.reviews, c.reviews[j].gameId) == c.reviews[j].row.releaseDate
  {
    ReleaseDateOfMeaning(c.reviews, c.reviews[j].gameId);
    forall k | 0 <= k < j ensures c.reviews[k].gameId != c.reviews[j].gameId {
      ReviewIdsDistinct(c, k, j);
    }
    assert FirstWithId(c.reviews, c.reviews[j].gameId, j);
  }

  /**
    * With distinct ids nothing is merged: the table is every sales row, with
    * no release date, followed by every ratings row with its own date.
    */
  lemma GamesTableDistinct(c: Cleaned)
    requires NoDuplicates(GameIds(c.sales) + GameIds(c.reviews))
    ensures |GamesTable(c)| == |c.sales| + |c.reviews|
    ensures forall i :: 0 <= i < |c.sales| ==>
      GamesTable(c)[i] == GameRecord(c.sales[i].gameId, c.sales[i].row.name, None)
    ensures forall j :: 0 <= j < |c.reviews| ==>
      GamesTable(c)[|c.sales| + j] == GameRecord(c.reviews[j].gameId, c.reviews[j].row.title, c.reviews[j].row.releaseDate)
  {
    CombinedDistinct(c);
    forall i | 0 <= i < |c.sales| ensures GamesTable(c)[i] == GameRecord(c.sales[i].gameId, c.sales[i].row.name, None) {
      SalesUndated(c, i);
    }
    forall j | 0 <= j < |c.reviews|
      ensures GamesTable(c)[|c.sales| + j] == GameRecord(c.reviews[j].gameId, c.reviews[j].row.title, c.reviews[j].row.releaseDate)
    {
      ReviewsDated(c, j);
    }
  }

  /**
    * For a run of `load_and_clean_data` with distinct fresh ids, every
    * cleaned row, from either dataset, has its own games record: rows are
    * never matched by title.
    */
  lemma GamesOfRun(rawSales: seq<SalesRow>, rawGames: seq<RawReview>, ids: seq<string>)
    requires |rawSales| + |rawGames| <= |ids|
    requires NoDuplicates(ids)
    requires LoadAndClean(rawSales, rawGames, ids).Ok?
    ensures var c := LoadAndClean(rawSales, rawGames, ids).value;
      && |GamesTable(c)| == |CleanSales(rawSales).value| + |CleanReviews(rawGames).value|
      && GamesTable(c) == Combined(c)
  {
    var c := LoadAndClean(rawSales, rawGames, ids).value;
    IdsDistinct(rawSales, rawGames, ids);
    LoadAndCleanMeaning(rawSales, rawGames, ids);
    CombinedDistinct(c);
  }
}
