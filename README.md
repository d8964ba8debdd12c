# Video game sales and ratings: cleaning and reconciliation

This project models the data-cleaning core of `video_game.py`.

`load_and_clean_data` reads two datasets:

- a sales table with Rank, Name, Platform, Year, Genre, Publisher and five sales figures;
- a ratings table with Title, Release Date, Rating, Number of Reviews and passthrough columns.

It cleans each with a fixed sequence of pandas steps and gives every surviving row a fresh `game_id`. `setup_sqlite_database` then builds the `games` table from both frames: one record per id, with its title and a release date looked up among the ratings rows.

A frame is a sequence of rows; a cell is an `Option`. Each pandas step is one operation on sequences (module `Frame`):

- `dropna(subset=...)` is `Filter`, and so is a regex stripper such as `re.sub(r'[^0-9.]', '', s)` on a text;
- `drop_duplicates` is `DropDuplicatesBy`, which keeps the first occurrence;
- a column assignment is `MapRows`;
- `apply` with a lambda that may raise is `TryMap`, which fails with the first row's error.

The per-value rules live in `Text`, `Dates` and `Cleaning`. They are the regex strippers, `str.lower().str.strip()`, `float`, `pd.to_numeric`, the `Int64` cast and the `%b %d, %Y` date parse.

The cleaning itself is imperative, as in the source. `Pipeline.CleanSalesFrame` and `Pipeline.CleanGamesFrame` update their frame step by step, including the loop over `sales_cols`. `Pipeline.AssignIds` hands out ids in a loop. Each method is proved equal to a specification function: `Cleaning.CleanSales`, `Cleaning.CleanReviews` or `Pipeline.WithIds`.

The lemmas about those functions say what a cleaned table holds. It holds, in order and one for one, what the rules make of each row left after `dropna` and `drop_duplicates` (`CleanSalesRows`, `CleanReviewsRows`). Rows identical as read (for ratings, identical once the rating is extracted) are kept once; rows that become equal only after normalisation all stay. It is complete and normalised. A run fails precisely when a year is fractional in a sales row whose Name, Platform, Year, Genre and Publisher are present, or when the stripped rating of any ratings row is non-empty and not a numeral (more than one dot, or no digit).

`uuid4()` is replaced by a supplied sequence of ids. The sales rows take the first ids in order, and the ratings rows the ones after them.

Two behaviours of the code, as written, are stated as lemmas:

- **Duplicates are judged before normalising.** Duplicates are removed before titles and the sales text columns are normalised. So two rows that differ only in case or surrounding blanks both survive, as equal rows (`Cleaning.TitleVariantsStay`, `Cleaning.SalesVariantsStay`).
- **The review count keeps only digits.** So "1,234 reviews" reads as 1234, but "3.9K" reads as 39 (`Examples.ReviewCountAbbreviated`).

## Model

| member | source | states |
|---|---|---|
| Frame.FilterIsSubsequence | video_game.py:34 | the stripper's output is a subsequence of `str(x)`, and what `dropna` keeps is a subsequence of the frame: nothing is reordered |
| Frame.FilterCounts | video_game.py:40 | every character of the kept class (every row with the columns) occurs in the output as often as in the input, and nothing else occurs |
| Frame.FilterEmpty | video_game.py:34 | the stripped text is empty exactly when no character of the input is in the class |
| Frame.FilterAppend | video_game.py:40 | stripping a concatenation strips each part |
| Text.FloatRule | video_game.py:34 | `float` on a text of digits and dots succeeds exactly when it has at most one dot and at least one digit |
| Text.CountMultiset | video_game.py:34 | the dot count the `float` rule uses is the number of times '.' occurs, its multiplicity in the text |
| Text.ParseNatText | video_game.py:22 | `pd.to_numeric` of a number written in digits is that number |
| Text.NatTextValue | video_game.py:22 | the digits of a natural number read back as that number |
| Text.StripMeaning | video_game.py:28-30 | `str.strip` keeps a contiguous piece, drops only whitespace before and after it, and the piece has no whitespace at either end |
| Text.NormalizeMeaning | video_game.py:28-30 | `str.lower().str.strip()` is the lowered text without its surrounding whitespace, and the result is lower-case and trimmed |
| Text.NormalizeIdempotent | video_game.py:44 | normalising twice is normalising once |
| Text.LowerFacts | video_game.py:44 | lowering keeps the length and whitespace and leaves no upper-case letter |
| Dates.ParseDate | video_game.py:38 | a parsed release date is a calendar date within the range of a pandas timestamp |
| Dates.ParseFormat | video_game.py:38 | every such date, written as "Mon D, YYYY", parses back to itself |
| Dates.MonthRoundTrip | video_game.py:38 | each month abbreviation is three letters and reads back as its month |
| Dates.ParseDateMeaning | video_game.py:38 | a text parses to date `d` exactly when it is a month abbreviation in any case, blanks, a day of one or two digits, a comma, blanks and four digits whose values give `d`, and `d` is a calendar date within the timestamp range |
| Dates.ParseDateSound | video_game.py:38 | a text that parses splits into the pieces of a match, and their values give the parsed date |
| Dates.DateTextParses | video_game.py:38 | a text of the matched form parses to its date when that date exists and is in range, and to nothing otherwise |
| Dates.ParseExample | video_game.py:38 | "Nov 3, 2006" parses to 3 November 2006 |
| Frame.Filter | video_game.py:20 | `dropna` keeps only rows that have the columns and never adds rows; on a text, the regex stripper keeps only characters of its class |
| Frame.FilterMembership | video_game.py:20 | a row is kept by `dropna` exactly when it is in the frame and has the columns |
| Frame.FilterAll | video_game.py:36 | `dropna` on a frame whose rows all have the columns changes nothing |
| Frame.TryMap | video_game.py:33-35 | `apply` succeeds exactly when the lambda succeeds on every row, giving the row-by-row results; otherwise it raises the error of the first failing row |
| Frame.TryMapMembership | video_game.py:33-35 | the result of a successful `apply` holds exactly the values the lambda gives for the rows |
| Frame.MapMembership | video_game.py:28 | a column assignment holds exactly the images of the rows |
| Frame.MapRowsAppend | video_game.py:28 | a column assignment on two frames joined is the two results joined |
| Frame.SomesMembership | video_game.py:43 | a row is among the rows kept exactly when it is some input row's result |
| Frame.RowByRow | video_game.py:23-30 | a frame step that distributes over joined frames keeps, in order and one for one, what it makes of each single row |
| Frame.DropDuplicatesMeaning | video_game.py:21 | `drop_duplicates()` keeps every distinct row once, no two equal rows, in the order of first occurrence |
| Frame.DropDuplicatesIdempotent | video_game.py:37 | dropping duplicates twice is dropping them once |
| Frame.DropDuplicatesKeys | video_game.py:119 | dropping duplicates by key leaves each key of the input exactly once, and each kept row is the first row of the input with its key (`keep='first'`) |
| Frame.DropDuplicatesFirst | video_game.py:119 | every kept row is a row of the input that no earlier row shares its key with |
| Frame.DropDuplicatesOrder | video_game.py:119 | the kept keys are in the order of their first occurrence |
| Frame.DropDuplicatesNone | video_game.py:119 | with no repeated key nothing is dropped |
| Frame.DropDuplicatesPair | video_game.py:37 | two different rows are both kept |
| Frame.NoDuplicatesAsKeys | video_game.py:21 | `drop_duplicates()` with no subset compares whole rows: a frame has no repeated row exactly when it has no repeated key under the whole-row key |
| Frame.PrefixDistinct | video_game.py:47-48 | the first ids of distinct ids are distinct |
| Cleaning.ExtractRatingMeaning | video_game.py:33-35 | the rating lambda raises exactly when the kept text is non-empty with two dots or no digit, and raises with that text; it gives None exactly when `str(x)` has no digit or dot |
| Cleaning.ExtractRatingValue | video_game.py:34 | a present rating is non-negative and is the decimal value of the digits and dot kept from the cell, in their order |
| Cleaning.ReviewCountMeaning | video_game.py:39-42 | the count is missing exactly when the cell has no digit; otherwise it is the non-negative value of the cell's digits read in order |
| Cleaning.CoerceYearMeaning | video_game.py:22 | a year whose `to_numeric` equals an integer `n` is cast to `n`; one whose `to_numeric` is a number equal to no integer raises; one that is no number becomes missing |
| Cleaning.YearOfText | video_game.py:22 | a year written in digits is cast to that year |
| Cleaning.CoerceFiguresOfMeaning | video_game.py:24-26 | after `n` passes of the `sales_cols` loop, the first `n` figures are their `to_numeric`, and the other columns are unchanged |
| Cleaning.CoerceFiguresRows | video_game.py:24-26 | the loop on the frame is the loop on each row |
| Cleaning.CoercedFigures | video_game.py:24-26 | after the loop each figure is its own `to_numeric`, and the other columns are unchanged |
| Cleaning.NormalizeSalesMeaning | video_game.py:28-30 | Platform, Genre and Publisher become normalised, keep their presence, and nothing else changes |
| Cleaning.CleanSalesRowKept | video_game.py:20-27 | a sales row survives exactly when its key columns are present and its year and five figures are numbers |
| Cleaning.CleanSalesRowValue | video_game.py:20-30 | a surviving sales row is complete: whole year, numeric figures, normalised text, and Rank and Name exactly as read |
| Cleaning.CleanSalesFails | video_game.py:22 | the sales cleaning raises exactly when a row with its key columns present has a fractional year, with that row's error |
| Cleaning.CleanSalesMeaning | video_game.py:19-30 | which rows a successful sales cleaning holds: a row is in it exactly when some raw row cleans to it on its own (order and copies: `CleanSalesRows`) |
| Cleaning.FinishSalesMeaning | video_game.py:23-30 | which rows lines 23-30 keep: exactly the results of `FinishSalesRow` on the input rows (order and copies: `FinishSalesRows`) |
| Cleaning.CoerceFiguresAppend | video_game.py:24-26 | the `sales_cols` loop on two frames joined is the loop on each |
| Cleaning.FinishSalesAppend | video_game.py:23-30 | lines 23-30 on two frames joined give the two results joined |
| Cleaning.FinishSalesOne | video_game.py:23-30 | lines 23-30 on one row give the row `FinishSalesRow` makes of it, or no row |
| Cleaning.FinishSalesRows | video_game.py:23-30 | lines 23-30 give, in order and one for one, what `FinishSalesRow` makes of each input row |
| Cleaning.CleanSalesRows | video_game.py:19-30 | a successful sales cleaning is, in order and one for one, `CleanSalesRow` of each row left by `dropna` and `drop_duplicates` at lines 20-21 |
| Cleaning.CleanReviewRowMeaning | video_game.py:33-44 | a ratings row survives exactly when it has a rating, a date that parses and a count with a digit; it is then complete, with its title normalised and its other columns as read |
| Cleaning.CompleteReviewsMeaning | video_game.py:38-44 | which rows lines 38-44 keep: exactly the results of `CompleteReviewRow` on the input rows (order and copies: `CompleteReviewsRows`) |
| Cleaning.CompleteReviewsAppend | video_game.py:38-44 | lines 38-44 on two frames joined give the two results joined |
| Cleaning.CompleteReviewsOne | video_game.py:38-44 | lines 38-44 on one row give the row `CompleteReviewRow` makes of it, or no row |
| Cleaning.CompleteReviewsRows | video_game.py:38-44 | lines 38-44 give, in order and one for one, what `CompleteReviewRow` makes of each input row |
| Cleaning.FinishReviewsMeaning | video_game.py:36-44 | which rows lines 36-44 keep: exactly the results of `FinishReviewRow` on the input rows (order and copies: `CompleteReviewsRows` after `drop_duplicates`) |
| Cleaning.CleanReviewsFails | video_game.py:33-35 | the ratings cleaning raises exactly when some row's stripped rating is non-empty and not a numeral (more than one dot, or no digit), with the error of the first such row |
| Cleaning.CleanReviewsMeaning | video_game.py:32-44 | which rows a successful ratings cleaning holds: a row is in it exactly when some raw row cleans to it on its own (order and copies: `CleanReviewsRows`) |
| Cleaning.CleanReviewsRows | video_game.py:32-44 | a successful ratings cleaning is, in order and one for one, `CompleteReviewRow` of each row left by the rating `apply`, `dropna` and `drop_duplicates` at lines 33-37 |
| Cleaning.CompleteReviewsAllKept | video_game.py:38-44 | when every row survives, each is cleaned in place |
| Cleaning.SameRatingMerges | video_game.py:33-37 | two rows that read the same rating and are otherwise equal collapse into one |
| Cleaning.TitleVariantsStay | video_game.py:37-44 | two ratings rows that still differ after the rating is extracted (for example only in Title case) and clean to the same row both survive |
| Cleaning.SalesVariantsStay | video_game.py:21-30 | two different sales rows that clean to the same row both survive |
| Pipeline.CleanSalesFrame | video_game.py:19-30 | the step-by-step sales cleaning, with its `sales_cols` loop, computes `CleanSales` |
| Pipeline.CleanGamesFrame | video_game.py:32-44 | the step-by-step ratings cleaning computes `CleanReviews` |
| Pipeline.AssignIds | video_game.py:47-48 | the id loop gives the i-th row the i-th id |
| Pipeline.LoadAndCleanData | video_game.py:19-51 | the whole cleaning computes `LoadAndClean`, and on success every row of each table is complete and normalised |
| Pipeline.CleanRows | video_game.py:19-44 | every row of a successful run is complete and normalised |
| Pipeline.IdsRoundTrip | video_game.py:47-48 | adding ids and taking them off gives back the rows and the ids |
| Pipeline.LoadAndCleanMeaning | video_game.py:19-48 | a run fails exactly when either cleaning raises, sales first; otherwise each table holds its cleaned rows in order |
| Pipeline.IdsDistinct | video_game.py:47-48 | the ids used are the first ones supplied, sales rows first, so distinct ids stay distinct within and across the two tables |
| Pipeline.TablesIds | video_game.py:47-48 | two tables given consecutive ids use the first ids supplied |
| Loader.ReleaseDateOfMeaning | video_game.py:114-117 | the lookup gives the date of the first ratings row with the id, and None when there is no such row |
| Loader.Combined | video_game.py:110-113 | the concatenated frame has one record per sales row and per ratings row |
| Loader.GamesTableKeys | video_game.py:110-119 | `game_id` is a key of the games table, the table has a record for exactly the ids of the two frames, and the record kept for an id is the first combined record with it |
| Loader.GamesTableDistinct | video_game.py:110-119 | with distinct ids: every sales record, undated, then every ratings record with its own date |
| Loader.GamesOfRun | video_game.py:110-119 | after a run with distinct ids nothing is merged, and the table has one record per cleaned row |
| Examples.RatingWithWords | video_game.py:34 | "4.5 stars" gives rating 4.5 |
| Examples.RatingTwoDots | video_game.py:34 | "1.2.3" raises |
| Examples.RatingMissing | video_game.py:34 | "N/A" and a missing cell give no rating |
| Examples.TrailingZeroRating | video_game.py:34 | "4.50" and "4.5" give the same rating |
| Examples.ReviewCountWithComma | video_game.py:39-42 | "1,234 reviews" gives 1234 |
| Examples.ReviewCountAbbreviated | video_game.py:39-42 | "3.9K" gives 39 |
| Examples.ReviewCountMissing | video_game.py:39-42 | a missing cell gives no count |
| Examples.YearExamples | video_game.py:22 | "N/A" gives no year, 2006.0 gives 2006, and 2006.5 raises |
| Examples.TitleCapital | video_game.py:44 | "Halo" normalises to "halo" |
| Examples.TitleSpaced | video_game.py:44 | "halo " normalises to "halo" |

## Left out

- Reading the CSV files and the missing-file path (`FileNotFoundError`, `sys.exit(1)`): file I/O and process exit. The model starts from the rows as read.
- Column typing by `read_csv`: in a sales row, Year and the five sales figures arrive as `Option` text or number, and Rank, Name, Platform, Genre and Publisher as `Option` text; every ratings cell arrives as `Option` text. Missing markers such as "N/A" are either absent or text that `to_numeric` rejects, as `read_csv` would have decided.
- All SQLite work: connecting, creating the tables, `to_sql`, commit, rollback and close. These are calls into a foreign library. The games table is modelled as the frame handed to `to_sql`, so the text form of the stored dates is not modelled either.
- `uuid.uuid4()`: randomness. Ids are a supplied sequence with at least one id per input row; distinctness is a precondition of the lemmas that need it.
- `print` progress messages and the `__main__` entry point: output only.
- Cleaning.ExtractRating: the rating is the exact decimal value as a real, not the nearest binary float.
- Text.ParseNumber: `pd.to_numeric` is modelled for an optional sign and a decimal numeral. Exponents, surrounding blanks, "inf" and "nan" are not accepted.
- Cleaning.CoerceYear: figures and years are exact reals, not float64. The cast to `Int64` has no overflow bound.
- Cleaning.ReviewCount: the count is an unbounded integer, not `Int64`. A count too large for 64 bits is not modelled.
- Text.IsDigit: `\d` in the date pattern and the digit classes are ASCII digits only. Python's regex `\d` also matches other Unicode decimal digits.
- Text.LowerChar: `str.lower` is modelled for ASCII letters only. Unicode case mapping is not.
- Dates.ParseDate: the C locale's month abbreviations only, matched with ASCII case folding; Python's `re.IGNORECASE` also lets a few non-ASCII letters (such as the long s) match.
- Cleaning.StrOf: a ratings cell stands for the text `str(x)` produces. A Rating or Number of Reviews column that `read_csv` types as float is not modelled, nor is Python's float formatting (`str(1234.0)` is "1234.0", which the count stripper reads as 12340).
