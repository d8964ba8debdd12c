/**
  * `load_and_clean_data`: the rows of the two datasets, the per-value
  * extractors and coercions, the cleaning steps in the order the source
  * applies them, and the assignment of one game id per surviving row.
  */
module Cleaning {
  import opened Wrappers
  import opened Text
  import opened Dates
  import opened Frame

  // ---------------------------------------------------------------------------
  // Rows.

  /** A Year or sales-figure cell: the CSV text, or a number once coerced. */
  datatype Num = Raw(text: string) | Decimal(number: real) | Integer(whole: int)

  /** A row of the sales dataset (vgsales.csv). */
  datatype SalesRow = SalesRow(
    rank: Option<string>,
    name: Option<string>,
    platform: Option<string>,
    year: Option<Num>,
    genre: Option<string>,
    publisher: Option<string>,
    naSales: Option<Num>,
    euSales: Option<Num>,
    jpSales: Option<Num>,
    otherSales: Option<Num>,
    globalSales: Option<Num>)

  /** `sales_cols`, in the order the source lists them. */
  datatype SalesColumn = NASales | EUSales | JPSales | OtherSales | GlobalSales

  const SalesColumns: seq<SalesColumn> := [NASales, EUSales, JPSales, OtherSales, GlobalSales]

  function Figure(r: SalesRow, c: SalesColumn): (r': Option<Num>) {
    match c
    case NASales => r.naSales
    case EUSales => r.euSales
    case JPSales => r.jpSales
    case OtherSales => r.otherSales
    case GlobalSales => r.globalSales
  }

  function WithFigure(r: SalesRow, c: SalesColumn, v: Option<Num>): (r': SalesRow)
    ensures Figure(r', c) == v
    ensures forall d :: d != c ==> Figure(r', d) == Figure(r, d)
    ensures r'.(naSales := r.naSales, euSales := r.euSales, jpSales := r.jpSales,
                otherSales := r.otherSales, globalSales := r.globalSales) == r
  {
    match c
    case NASales => r.(naSales := v)
    case EUSales => r.(euSales := v)
    case JPSales => r.(jpSales := v)
    case OtherSales => r.(otherSales := v)
    case GlobalSales => r.(globalSales := v)
  }

  /**
    * A row of the ratings dataset (games.csv), with the types of its rating,
    * release date and review count as parameters, since the source converts
    * those columns one step after another. `others` holds the columns passed
    * through unchanged (genres, summary, ...).
    */
  datatype ReviewRow<R, D, N> = ReviewRow(
    title: Option<string>,
    releaseDate: Option<D>,
    rating: Option<R>,
    reviews: Option<N>,
    others: seq<Option<string>>)

  /** As read: every cell is its CSV text or missing. */
  type RawReview = ReviewRow<string, string, string>

  /** After the rating extraction of lines 33-35. */
  type RatedReview = ReviewRow<real, string, string>

  /** After the date parse of line 38. */
  type DatedReview = ReviewRow<real, Date, string>

  /** After the review-count extraction of lines 39-42. */
  type Review = ReviewRow<real, Date, int>

  /** The exceptions that abort a cleaning run. */
  datatype CleanError =
    | YearNotWhole(year: real)          // `astype('Int64')` of a non-integral year (line 22)
    | RatingNotNumeric(text: string)    // `float(...)` of a stripped rating (line 34)

  // ---------------------------------------------------------------------------
  // Sales: per-value coercions.

  /** `pd.to_numeric(x, errors='coerce')`: numbers stay, text parses or becomes absent. */
  function ToNumeric(f: Option<Num>): (r: Option<real>) {
    match f
    case None => None
    case Some(Raw(t)) => ParseNumber(t)
    case Some(Decimal(x)) => Some(x)
    case Some(Integer(n)) => Some(n as real)
  }

  /** Line 22, one value: `to_numeric` then the cast to `Int64`, which raises on a fraction. */
  function CoerceYear(f: Option<Num>): (r: Result<Option<Num>, CleanError>) {
    match ToNumeric(f)
    case None => Ok(None)
    case Some(x) => if x.Floor as real == x then Ok(Some(Integer(x.Floor))) else Err(YearNotWhole(x))
  }

  function WithYear(r: SalesRow): (r': Result<SalesRow, CleanError>) {
    match CoerceYear(r.year)
    case Err(e) => Err(e)
    case Ok(y) => Ok(r.(year := y))
  }

  function AsNumber(x: Option<real>): (r: Option<Num>) {
    match x
    case None => None
    case Some(v) => Some(Decimal(v))
  }

  /** Line 26 applied to one column of one row. */
  function CoerceFigure(r: SalesRow, c: SalesColumn): (r': SalesRow) {
    WithFigure(r, c, AsNumber(ToNumeric(Figure(r, c))))
  }

  /** The first `n` columns of `sales_cols` coerced, column after column, on one row. */
  function CoerceFiguresOf(r: SalesRow, n: nat): (r': SalesRow)
    requires n <= |SalesColumns|
  {
    if n == 0 then r else CoerceFigure(CoerceFiguresOf(r, n - 1), SalesColumns[n - 1])
  }

  /** The first `n` passes of the loop at lines 25-26, on the whole table. */
  function CoerceFigures(rows: seq<SalesRow>, n: nat): (r: seq<SalesRow>)
    requires n <= |SalesColumns|
    ensures |r| == |rows|
  {
    if n == 0 then rows else
    var c := SalesColumns[n - 1];
    MapRows(CoerceFigures(rows, n - 1), (x: SalesRow) => CoerceFigure(x, c))
  }

  predicate HasSalesKeys(r: SalesRow) {
    r.year.Some? && r.publisher.Some? && r.name.Some? && r.platform.Some? && r.genre.Some?
  }

  predicate HasYear(r: SalesRow) {
    r.year.Some?
  }

  predicate HasFigures(r: SalesRow) {
    r.naSales.Some? && r.euSales.Some? && r.jpSales.Some? && r.otherSales.Some? && r.globalSales.Some?
  }

  /** `.str.lower().str.strip()` on one cell; a missing value stays missing. */
  function NormalizeText(f: Option<string>): (r: Option<string>) {
    match f
    case None => None
    case Some(s) => Some(Normalize(s))
  }

  function NormalizeSales(r: SalesRow): (r': SalesRow) {
    r.(platform := NormalizeText(r.platform), genre := NormalizeText(r.genre),
       publisher := NormalizeText(r.publisher))
  }

  // ---------------------------------------------------------------------------
  // Ratings: per-value extractors.

  /** `str(x)`: the text of a cell; a missing value prints as "nan". */
  function StrOf(cell: Option<string>): (r: string) {
    match cell
    case None => "nan"
    case Some(s) => s
  }

  /** `re.sub(r'[^0-9.]', '', str(x))`. */
  function RatingText(cell: Option<string>): (r: string) {
    Filter(StrOf(cell), IsRatingChar)
  }

  /** The lambda of line 34: absent when nothing is left, else `float` of what is left, which may raise. */
  function ExtractRating(cell: Option<string>): (r: Result<Option<real>, CleanError>)
  {
    var t := RatingText(cell);
    if t == [] then Ok(None)
    else if IsDecimalBody(t) then Ok(Some(DecimalValue(t)))
    else Err(RatingNotNumeric(t))
  }

  function WithRating(r: RawReview): (r': Result<RatedReview, CleanError>) {
    match ExtractRating(r.rating)
    case Err(e) => Err(e)
    case Ok(x) => Ok(ReviewRow(r.title, r.releaseDate, x, r.reviews, r.others))
  }

  /** Line 38, one value. */
  function ParseReleaseDate(cell: Option<string>): (r: Option<Date>) {
    match cell
    case None => None
    case Some(s) => ParseDate(s)
  }

  function WithReleaseDate(r: RatedReview): (r': DatedReview) {
    ReviewRow(r.title, ParseReleaseDate(r.releaseDate), r.rating, r.reviews, r.others)
  }

  /** Lines 39-42, one value: keep the digits, then `to_numeric`; nothing left is absent. */
  function ReviewCount(cell: Option<string>): (r: Option<int>) {
    var t := Filter(StrOf(cell), IsDigit);
    if t == [] then None else Some(DigitsValue(t))
  }

  function WithReviewCount(r: DatedReview): (r': Review) {
    ReviewRow(r.title, r.releaseDate, r.rating, ReviewCount(r.reviews), r.others)
  }

  predicate HasReviewKeys<R, D, N>(r: ReviewRow<R, D, N>) {
    r.rating.Some? && r.releaseDate.Some? && r.reviews.Some?
  }

  predicate HasDateAndCount<R, D, N>(r: ReviewRow<R, D, N>) {
    r.releaseDate.Some? && r.reviews.Some?
  }

  function NormalizeTitle(r: Review): (r': Review) {
    r.(title := NormalizeText(r.title))
  }

  // ---------------------------------------------------------------------------
  // The two cleaning sequences, step by step in source order.

  /** Lines 19-30. */
  function CleanSales(raw: seq<SalesRow>): (r: Result<seq<SalesRow>, CleanError>)
    ensures r.Ok? ==> |r.value| <= |raw|
  {
    var kept := Filter(raw, HasSalesKeys);                         // line 20
    var unique := DropDuplicates(kept);                            // line 21
    var withYears :- TryMap(unique, WithYear);                     // line 22
    Ok(FinishSales(withYears))                                     // lines 23-30
  }

  /** Lines 23-30 on the rows whose year is cast. */
  function FinishSales(withYears: seq<SalesRow>): (r: seq<SalesRow>)
    ensures |r| <= |withYears|
  {
    var dated := Filter(withYears, HasYear);                       // line 23
    var numeric := CoerceFigures(dated, |SalesColumns|);           // lines 24-26
    var complete := Filter(numeric, HasFigures);                   // line 27
    MapRows(complete, NormalizeSales)                              // lines 28-30
  }

  /**
    * Lines 38-44 on the deduplicated rows: parse the dates (line 38), count
    * the reviews (lines 39-42), drop rows missing either (line 43) and
    * normalise the titles (line 44).
    */
  function CompleteReviews(us: seq<RatedReview>): (r: seq<Review>)
    ensures |r| <= |us|
  {
    var dated := MapRows(us, WithReleaseDate);
    var counted := MapRows(dated, WithReviewCount);
    var complete := Filter(counted, HasDateAndCount);
    MapRows(complete, NormalizeTitle)
  }

  /** Lines 32-44. */
  function CleanReviews(raw: seq<RawReview>): (r: Result<seq<Review>, CleanError>)
    ensures r.Ok? ==> |r.value| <= |raw|
  {
    var rated :- TryMap(raw, WithRating);                          // lines 33-35
    Ok(FinishReviews(rated))                                       // lines 36-44
  }

  /** Lines 36-44 on the rows whose rating is extracted. */
  function FinishReviews(rated: seq<RatedReview>): (r: seq<Review>)
    ensures |r| <= |rated|
  {
    var kept := Filter(rated, HasReviewKeys);                      // line 36
    var unique := DropDuplicates(kept);                            // line 37
    CompleteReviews(unique)                                        // lines 38-44
  }

  // ---------------------------------------------------------------------------
  // What the per-value steps mean.

  /** `float(...)` of the kept characters fails exactly when they hold two dots or no digit. */
  lemma ExtractRatingMeaning(cell: Option<string>)
    ensures var t := RatingText(cell);
      (ExtractRating(cell).Err? <==> t != [] && (Count(t, '.') > 1 || forall i :: 0 <= i < |t| ==> t[i] == '.'))
      && (ExtractRating(cell) == Ok(None) <==> forall i :: 0 <= i < |StrOf(cell)| ==> !IsRatingChar(StrOf(cell)[i]))
      && (ExtractRating(cell).Err? ==> ExtractRating(cell).error == RatingNotNumeric(t))
  {
    var t := RatingText(cell);
    FloatRule(t);
    FilterEmpty(StrOf(cell), IsRatingChar);
  }

  /** A rating is the non-negative value of the digits and dot kept from the cell, in their order. */
  lemma ExtractRatingValue(cell: Option<string>)
    requires ExtractRating(cell).Ok? && ExtractRating(cell).value.Some?
    ensures var t := RatingText(cell);
      ExtractRating(cell).value.value >= 0.0
      && IsSubsequence(t, StrOf(cell)) && IsDecimalBody(t)
      && ExtractRating(cell).value.value == DecimalValue(t)
      && forall c :: multiset(t)[c] == if IsRatingChar(c) then multiset(StrOf(cell))[c] else 0
  {
    var t := RatingText(cell);
    assert t != [] && IsDecimalBody(t);
    assert ExtractRating(cell) == Ok(Some(DecimalValue(t)));
    FilterIsSubsequence(StrOf(cell), IsRatingChar);
    FilterCounts(StrOf(cell), IsRatingChar);
  }

  /**
    * The review count reads the digits of the cell, in order, as one decimal
    * number; it is missing exactly when the cell holds no digit.
    */
  lemma ReviewCountMeaning(cell: Option<string>)
    ensures var s := StrOf(cell);
      (ReviewCount(cell).None? <==> forall i :: 0 <= i < |s| ==> !IsDigit(s[i]))
      && (ReviewCount(cell).Some? ==>
            ReviewCount(cell).value >= 0
            && exists t :: AllDigits(t) && IsSubsequence(t, s) && ReviewCount(cell).value == DigitsValue(t)
                 && forall c :: multiset(t)[c] == if IsDigit(c) then multiset(s)[c] else 0)
  {
    FilterEmpty(StrOf(cell), IsDigit);
    if ReviewCount(cell).Some? {
      ReviewCountDigits(cell);
    }
  }

  /** The digits a present count is read from. */
  lemma ReviewCountDigits(cell: Option<string>)
    requires ReviewCount(cell).Some?
    ensures var s := StrOf(cell);
      exists t :: AllDigits(t) && IsSubsequence(t, s) && ReviewCount(cell).value == DigitsValue(t)
        && forall c :: multiset(t)[c] == if IsDigit(c) then multiset(s)[c] else 0
  {
    var s := StrOf(cell);
    var t := Filter(s, IsDigit);
    FilterIsSubsequence(s, IsDigit);
    FilterCounts(s, IsDigit);
    assert AllDigits(t) && ReviewCount(cell).value == DigitsValue(t);
  }

  /** The integer `n` as a real number. */
  function RealOf(n: int): (x: real)
    ensures x.Floor == n
  {
    n as real
  }

  /**
    * `to_numeric(...).astype('Int64')` on a Year cell: a number equal to an
    * integer becomes that integer, any other number raises, and a cell that
    * is not a number is missing.
    */
  lemma CoerceYearMeaning(f: Option<Num>)
    ensures forall n: int :: CoerceYear(f) == Ok(Some(Integer(n))) <==> ToNumeric(f) == Some(RealOf(n))
    ensures CoerceYear(f).Err? <==> ToNumeric(f).Some? && forall n: int :: ToNumeric(f) != Some(RealOf(n))
    ensures CoerceYear(f) == Ok(None) <==> ToNumeric(f).None?
  {
    if ToNumeric(f).Some? {
      var x := ToNumeric(f).value;
      assert x.Floor as real == x ==> x == RealOf(x.Floor);
    }
  }

  /** A year written in digits is read as that year. */
  lemma YearOfText(n: nat)
    ensures CoerceYear(Some(Raw(NatText(n)))) == Ok(Some(Integer(n)))
  {
    ParseNatText(n);
  }

  // ---------------------------------------------------------------------------
  // The sales_cols loop.

  /** After `n` passes, the first `n` columns are coerced and every other field is as before. */
  lemma {:induction false} CoerceFiguresOfMeaning(r: SalesRow, n: nat)
    requires n <= |SalesColumns|
    ensures var r' := CoerceFiguresOf(r, n);
      (forall k :: 0 <= k < n ==> Figure(r', SalesColumns[k]) == AsNumber(ToNumeric(Figure(r, SalesColumns[k]))))
      && (forall k :: n <= k < |SalesColumns| ==> Figure(r', SalesColumns[k]) == Figure(r, SalesColumns[k]))
      && r'.rank == r.rank && r'.name == r.name && r'.platform == r.platform && r'.year == r.year
      && r'.genre == r.genre && r'.publisher == r.publisher
  {
    if n > 0 {
      CoerceFiguresOfMeaning(r, n - 1);
      var c := SalesColumns[n - 1];
      forall k | 0 <= k < |SalesColumns| && k != n - 1 ensures SalesColumns[k] != c {
      }
    }
  }

  /** The loop on the table is the loop on each row. */
  lemma {:induction false} CoerceFiguresRows(rows: seq<SalesRow>, n: nat)
    requires n <= |SalesColumns|
    ensures forall i :: 0 <= i < |rows| ==> CoerceFigures(rows, n)[i] == CoerceFiguresOf(rows[i], n)
  {
    if n > 0 {
      CoerceFiguresRows(rows, n - 1);
    }
  }

  /** The figures after the loop: each is its own `to_numeric`, whatever the order of the columns. */
  lemma CoercedFigures(r: SalesRow)
    ensures var r' := CoerceFiguresOf(r, |SalesColumns|);
      (forall c :: Figure(r', c) == AsNumber(ToNumeric(Figure(r, c))))
      && r'.rank == r.rank && r'.name == r.name && r'.platform == r.platform && r'.year == r.year
      && r'.genre == r.genre && r'.publisher == r.publisher
  {
    CoerceFiguresOfMeaning(r, |SalesColumns|);
    var r' := CoerceFiguresOf(r, |SalesColumns|);
    forall c ensures Figure(r', c) == AsNumber(ToNumeric(Figure(r, c))) {
      var k := match c case NASales => 0 case EUSales => 1 case JPSales => 2 case OtherSales => 3 case GlobalSales => 4;
      assert SalesColumns[k] == c;
    }
  }

  // ---------------------------------------------------------------------------
  // Sales, row by row.

  /** A row fit for the sales table: keys present, a whole year, numeric figures, normalised text. */
  predicate IsCleanSalesRow(y: SalesRow) {
    && HasSalesKeys(y)
    && y.year.value.Integer?
    && (forall c :: Figure(y, c).Some? && Figure(y, c).value.Decimal?)
    && IsNormal(y.platform.value) && IsNormal(y.genre.value) && IsNormal(y.publisher.value)
  }

  /** What the sales rules make of one row on its own: the cleaned row, or None when a `dropna` drops it. */
  function CleanSalesRow(x: SalesRow): (r: Option<SalesRow>) {
    if !HasSalesKeys(x) then None else
    match WithYear(x)
    case Err(_) => None
    case Ok(w) => FinishSalesRow(w)
  }

  /** Lines 23-30 on one row whose year is already cast. */
  function FinishSalesRow(w: SalesRow): (r: Option<SalesRow>) {
    if !HasYear(w) then None else
    var z := CoerceFiguresOf(w, |SalesColumns|);
    if HasFigures(z) then Some(NormalizeSales(z)) else None
  }

  /** Normalising the text columns changes nothing else and leaves them in normal form. */
  lemma NormalizeSalesMeaning(z: SalesRow)
    ensures var y := NormalizeSales(z);
      && (forall c :: Figure(y, c) == Figure(z, c))
      && y.rank == z.rank && y.name == z.name && y.year == z.year
      && (y.platform.Some? <==> z.platform.Some?) && (y.platform.Some? ==> IsNormal(y.platform.value))
      && (y.genre.Some? <==> z.genre.Some?) && (y.genre.Some? ==> IsNormal(y.genre.value))
      && (y.publisher.Some? <==> z.publisher.Some?) && (y.publisher.Some? ==> IsNormal(y.publisher.value))
  {
    if z.platform.Some? { var _, _ := NormalizeMeaning(z.platform.value); }
    if z.genre.Some? { var _, _ := NormalizeMeaning(z.genre.value); }
    if z.publisher.Some? { var _, _ := NormalizeMeaning(z.publisher.value); }
  }

  /** `HasFigures` is "every column of `sales_cols` is present". */
  lemma HasFiguresMeaning(z: SalesRow)
    ensures HasFigures(z) <==> forall c :: Figure(z, c).Some?
  {
    assert Figure(z, NASales) == z.naSales && Figure(z, EUSales) == z.euSales;
    assert Figure(z, JPSales) == z.jpSales && Figure(z, OtherSales) == z.otherSales;
    assert Figure(z, GlobalSales) == z.globalSales;
  }

  /** A year that does not raise is cast to a whole number; the other columns stay. */
  lemma WithYearMeaning(x: SalesRow)
    requires WithYear(x).Ok?
    ensures var w := WithYear(x).value;
      && (w.year.Some? <==> ToNumeric(x.year).Some?)
      && (w.year.Some? ==> w.year == Some(Integer(ToNumeric(x.year).value.Floor))
                           && ToNumeric(x.year).value.Floor as real == ToNumeric(x.year).value)
      && w.rank == x.rank && w.name == x.name && w.platform == x.platform
      && w.genre == x.genre && w.publisher == x.publisher
      && forall c :: Figure(w, c) == Figure(x, c)
  {
  }

  /**
    * A row whose year does not raise survives exactly when its key columns
    * are present and its year and five figures are numbers.
    */
  lemma CleanSalesRowKept(x: SalesRow)
    requires HasSalesKeys(x) ==> WithYear(x).Ok?
    ensures CleanSalesRow(x).Some? <==>
      HasSalesKeys(x) && ToNumeric(x.year).Some? && forall c :: ToNumeric(Figure(x, c)).Some?
  {
    if HasSalesKeys(x) {
      var w := WithYear(x).value;
      WithYearMeaning(x);
      assert CleanSalesRow(x) == FinishSalesRow(w);
      if HasYear(w) {
        CoercedFigures(w);
        HasFiguresMeaning(CoerceFiguresOf(w, |SalesColumns|));
      }
    }
  }

  /**
    * A surviving row holds its year as a whole number, its figures as
    * numbers, its text columns normalised and everything else as read.
    */
  lemma CleanSalesRowValue(x: SalesRow)
    requires CleanSalesRow(x).Some?
    ensures var y := CleanSalesRow(x).value;
      && IsCleanSalesRow(y)
      && y.rank == x.rank && y.name == x.name
      && y.year == Some(Integer(ToNumeric(x.year).value.Floor)) && y.year.value.whole as real == ToNumeric(x.year).value
      && (forall c :: ToNumeric(Figure(x, c)).Some? && Figure(y, c) == Some(Decimal(ToNumeric(Figure(x, c)).value)))
      && y.platform == NormalizeText(x.platform) && y.genre == NormalizeText(x.genre)
      && y.publisher == NormalizeText(x.publisher)
  {
    var w := WithYear(x).value;
    WithYearMeaning(x);
    assert CleanSalesRow(x) == FinishSalesRow(w);
    var z := CoerceFiguresOf(w, |SalesColumns|);
    CoercedFigures(w);
    HasFiguresMeaning(z);
    assert HasFigures(z);
    var y := NormalizeSales(z);
    assert CleanSalesRow(x) == Some(y);
    NormalizeSalesMeaning(z);
  }

  /** Each row that lines 23-30 keep comes from one input row. */
  lemma FinishSalesFrom(ws: seq<SalesRow>, y: SalesRow)
    requires y in FinishSales(ws)
    ensures exists w :: w in ws && FinishSalesRow(w) == Some(y)
  {
    var dated := Filter(ws, HasYear);
    var numeric := CoerceFigures(dated, |SalesColumns|);
    var complete := Filter(numeric, HasFigures);
    FilterMembership(ws, HasYear);
    FilterMembership(numeric, HasFigures);
    MapMembership(complete, NormalizeSales);
    var z :| z in complete && y == NormalizeSales(z);
    var j :| 0 <= j < |numeric| && numeric[j] == z;
    CoerceFiguresRows(dated, |SalesColumns|);
    assert dated[j] in dated;
    assert FinishSalesRow(dated[j]) == Some(y);
  }

  /** Each input row that survives on its own is kept by lines 23-30. */
  lemma FinishSalesTo(ws: seq<SalesRow>, w: SalesRow)
    requires w in ws && FinishSalesRow(w).Some?
    ensures FinishSalesRow(w).value in FinishSales(ws)
  {
    var dated := Filter(ws, HasYear);
    var numeric := CoerceFigures(dated, |SalesColumns|);
    var complete := Filter(numeric, HasFigures);
    FilterMembership(ws, HasYear);
    var j :| 0 <= j < |dated| && dated[j] == w;
    CoerceFiguresRows(dated, |SalesColumns|);
    FilterMembership(numeric, HasFigures);
    assert numeric[j] in complete;
    MapMembership(complete, NormalizeSales);
  }

  /** Lines 23-30 keep, row by row, what `FinishSalesRow` keeps. */
  lemma FinishSalesMeaning(ws: seq<SalesRow>)
    ensures forall y :: y in FinishSales(ws) <==> exists w :: w in ws && FinishSalesRow(w) == Some(y)
  {
    forall y | y in FinishSales(ws) ensures exists w :: w in ws && FinishSalesRow(w) == Some(y) {
      FinishSalesFrom(ws, y);
    }
    forall y | exists w :: w in ws && FinishSalesRow(w) == Some(y) ensures y in FinishSales(ws) {
      var w :| w in ws && FinishSalesRow(w) == Some(y);
      FinishSalesTo(ws, w);
    }
  }

  /** The figures loop on two frames joined is the loop on each. */
  lemma CoerceFiguresAppend(a: seq<SalesRow>, b: seq<SalesRow>, n: nat)
    requires n <= |SalesColumns|
    ensures CoerceFigures(a + b, n) == CoerceFigures(a, n) + CoerceFigures(b, n)
  {
    CoerceFiguresRows(a + b, n);
    CoerceFiguresRows(a, n);
    CoerceFiguresRows(b, n);
    forall i | 0 <= i < |a + b| ensures CoerceFigures(a + b, n)[i] == (CoerceFigures(a, n) + CoerceFigures(b, n))[i] {
      if i < |a| {
        assert (a + b)[i] == a[i];
      } else {
        assert (a + b)[i] == b[i - |a|];
      }
    }
  }

  /** Lines 23-30 treat each row on its own: on two frames joined they give the two results joined. */
  lemma FinishSalesAppend(a: seq<SalesRow>, b: seq<SalesRow>)
    ensures FinishSales(a + b) == FinishSales(a) + FinishSales(b)
  {
    var n := |SalesColumns|;
    FilterAppend(a, b, HasYear);
    var da, db := Filter(a, HasYear), Filter(b, HasYear);
    CoerceFiguresAppend(da, db, n);
    var na, nb := CoerceFigures(da, n), CoerceFigures(db, n);
    FilterAppend(na, nb, HasFigures);
    MapRowsAppend(Filter(na, HasFigures), Filter(nb, HasFigures), NormalizeSales);
  }

  /** Lines 23-30 on a one-row frame give what that row becomes. */
  lemma FinishSalesOne(w: SalesRow)
    ensures FinishSales([w]) == Present(FinishSalesRow(w))
  {
    var n := |SalesColumns|;
    var dated := Filter([w], HasYear);
    assert [w][1..] == [];
    assert dated == if HasYear(w) then [w] else [];
    CoerceFiguresRows(dated, n);
    var numeric := CoerceFigures(dated, n);
    if HasYear(w) {
      assert numeric == [CoerceFiguresOf(w, n)];
      assert numeric[1..] == [];
      assert FinishSales([w]) == MapRows(Filter(numeric, HasFigures), NormalizeSales);
      if HasFigures(numeric[0]) {
        assert Filter(numeric, HasFigures) == [numeric[0]];
      } else {
        assert Filter(numeric, HasFigures) == [];
      }
    } else {
      assert numeric == [];
    }
  }

  /**
    * Lines 23-30 keep, in order and one for one, the rows that survive on
    * their own: what `FinishSalesRow` makes of each input row.
    */
  lemma FinishSalesRows(ws: seq<SalesRow>)
    ensures FinishSales(ws) == Somes(MapRows(ws, FinishSalesRow))
  {
    forall a, b ensures FinishSales(a + b) == FinishSales(a) + FinishSales(b) {
      FinishSalesAppend(a, b);
    }
    forall w ensures FinishSales([w]) == Present(FinishSalesRow(w)) {
      FinishSalesOne(w);
    }
    RowByRow(ws, FinishSales, FinishSalesRow);
  }

  /** The sales rules fail exactly when a row with its key columns present has a fractional year. */
  lemma CleanSalesFails(raw: seq<SalesRow>)
    ensures CleanSales(raw).Err? <==> exists i :: 0 <= i < |raw| && HasSalesKeys(raw[i]) && WithYear(raw[i]).Err?
    ensures CleanSales(raw).Err? ==>
      exists i :: 0 <= i < |raw| && HasSalesKeys(raw[i]) && WithYear(raw[i]) == Err(CleanSales(raw).error)
  {
    var kept := Filter(raw, HasSalesKeys);
    var unique := DropDuplicates(kept);
    FilterMembership(raw, HasSalesKeys);
    DropDuplicatesMeaning(kept);
    var t := TryMap(unique, WithYear);
    if t.Err? {
      assert CleanSales(raw) == Err(t.error);
      var i :| 0 <= i < |unique| && WithYear(unique[i]) == Err(t.error);
      assert unique[i] in kept;
      var k :| 0 <= k < |raw| && raw[k] == unique[i];
    } else {
      forall i | 0 <= i < |raw| && HasSalesKeys(raw[i]) ensures WithYear(raw[i]).Ok? {
        assert raw[i] in unique;
        var j :| 0 <= j < |unique| && unique[j] == raw[i];
      }
    }
  }

  /**
    * Otherwise a row is in the table exactly when some raw row cleans to it
    * on its own; the order and the copies are fixed by `CleanSalesRows`.
    */
  lemma CleanSalesMeaning(raw: seq<SalesRow>)
    requires CleanSales(raw).Ok?
    ensures forall y :: y in CleanSales(raw).value <==> exists x :: x in raw && CleanSalesRow(x) == Some(y)
  {
    var unique := DropDuplicates(Filter(raw, HasSalesKeys));
    UniqueSalesRows(raw);
    var withYears := TryMap(unique, WithYear).value;
    assert CleanSales(raw).value == FinishSales(withYears);
    TryMapMembership(unique, WithYear);
    FinishSalesMeaning(withYears);
    forall y | y in FinishSales(withYears) ensures exists x :: x in raw && CleanSalesRow(x) == Some(y) {
      var w :| w in withYears && FinishSalesRow(w) == Some(y);
      var x :| x in unique && WithYear(x) == Ok(w);
      assert CleanSalesRow(x) == Some(y);
    }
    forall y | exists x :: x in raw && CleanSalesRow(x) == Some(y) ensures y in FinishSales(withYears) {
      var x :| x in raw && CleanSalesRow(x) == Some(y);
      assert WithYear(x).value in withYears;
    }
  }

  /**
    * A successful sales cleaning is, in order and one for one, what the
    * rules make of each row left by lines 20-21.
    */
  lemma CleanSalesRows(raw: seq<SalesRow>)
    requires CleanSales(raw).Ok?
    ensures CleanSales(raw).value == Somes(MapRows(DropDuplicates(Filter(raw, HasSalesKeys)), CleanSalesRow))
  {
    var unique := DropDuplicates(Filter(raw, HasSalesKeys));
    var withYears := TryMap(unique, WithYear).value;
    assert CleanSales(raw).value == FinishSales(withYears);
    FinishSalesRows(withYears);
    forall i | 0 <= i < |unique| ensures MapRows(withYears, FinishSalesRow)[i] == MapRows(unique, CleanSalesRow)[i] {
      assert unique[i] in Filter(raw, HasSalesKeys);
      var j :| 0 <= j < |Filter(raw, HasSalesKeys)| && Filter(raw, HasSalesKeys)[j] == unique[i];
      assert HasSalesKeys(unique[i]);
      assert WithYear(unique[i]) == Ok(withYears[i]);
      assert CleanSalesRow(unique[i]) == FinishSalesRow(withYears[i]);
    }
    assert MapRows(withYears, FinishSalesRow) == MapRows(unique, CleanSalesRow);
  }

  /** Lines 20-21 keep one copy of each row whose key columns are present. */
  lemma UniqueSalesRows(raw: seq<SalesRow>)
    ensures forall x :: x in DropDuplicates(Filter(raw, HasSalesKeys)) <==> x in raw && HasSalesKeys(x)
  {
    FilterMembership(raw, HasSalesKeys);
    DropDuplicatesMeaning(Filter(raw, HasSalesKeys));
  }

  // ---------------------------------------------------------------------------
  // Ratings, row by row.

  /** A row fit for the ratings table: a non-negative rating, a real date, a count, a normalised title. */
  predicate IsCleanReview(y: Review) {
    && y.rating.Some? && y.rating.value >= 0.0
    && y.releaseDate.Some? && IsCalendarDate(y.releaseDate.value) && InTimestampRange(y.releaseDate.value)
    && y.reviews.Some? && y.reviews.value >= 0
    && (y.title.Some? ==> IsNormal(y.title.value))
  }

  /** Lines 36-44 on one row whose rating is already extracted. */
  function FinishReviewRow(w: RatedReview): (r: Option<Review>) {
    if HasReviewKeys(w) then CompleteReviewRow(w) else None
  }

  /** Lines 38-44 on one row. */
  function CompleteReviewRow(w: RatedReview): (r: Option<Review>) {
    var z := WithReviewCount(WithReleaseDate(w));
    if HasDateAndCount(z) then Some(NormalizeTitle(z)) else None
  }

  /** What the ratings rules make of one row on its own, or None when a `dropna` drops it. */
  function CleanReviewRow(x: RawReview): (r: Option<Review>) {
    match WithRating(x)
    case Err(_) => None
    case Ok(w) => FinishReviewRow(w)
  }

  /**
    * A row whose rating does not raise survives exactly when its rating has
    * a digit, its date parses and its count has a digit; it then holds those
    * values, its title normalised and its other columns as read.
    */
  lemma CleanReviewRowMeaning(x: RawReview)
    requires ExtractRating(x.rating).Ok?
    ensures CleanReviewRow(x).Some? <==>
      && ExtractRating(x.rating).value.Some?
      && x.releaseDate.Some? && ParseDate(x.releaseDate.value).Some?
      && x.reviews.Some? && ReviewCount(x.reviews).Some?
    ensures CleanReviewRow(x).Some? ==>
      var y := CleanReviewRow(x).value;
      && IsCleanReview(y)
      && y.rating == ExtractRating(x.rating).value
      && y.releaseDate == ParseReleaseDate(x.releaseDate)
      && y.reviews == ReviewCount(x.reviews)
      && y.title == NormalizeText(x.title)
      && y.others == x.others
  {
    if CleanReviewRow(x).Some? {
      var y := CleanReviewRow(x).value;
      if x.title.Some? {
        var _, _ := NormalizeMeaning(x.title.value);
      }
    }
  }

  /** Every row after lines 38-44 comes from one row of `us`. */
  lemma CompleteReviewsFrom(us: seq<RatedReview>, y: Review)
    requires y in CompleteReviews(us)
    ensures exists w :: w in us && CompleteReviewRow(w) == Some(y)
  {
    var counted := MapRows(MapRows(us, WithReleaseDate), WithReviewCount);
    var complete := Filter(counted, HasDateAndCount);
    FilterMembership(counted, HasDateAndCount);
    var k :| 0 <= k < |complete| && y == CompleteReviews(us)[k];
    var z := complete[k];
    assert y == NormalizeTitle(z);
    assert z in complete;
    assert z in counted;
    var j :| 0 <= j < |counted| && counted[j] == z;
    assert CompleteReviewRow(us[j]) == Some(y);
  }

  /** Every row of `us` that survives on its own is in the table after lines 38-44. */
  lemma CompleteReviewsTo(us: seq<RatedReview>, w: RatedReview)
    requires w in us && CompleteReviewRow(w).Some?
    ensures CompleteReviewRow(w).value in CompleteReviews(us)
  {
    var counted := MapRows(MapRows(us, WithReleaseDate), WithReviewCount);
    var complete := Filter(counted, HasDateAndCount);
    FilterMembership(counted, HasDateAndCount);
    var j :| 0 <= j < |us| && us[j] == w;
    assert counted[j] in complete;
    var k :| 0 <= k < |complete| && complete[k] == counted[j];
    assert CompleteReviews(us)[k] == CompleteReviewRow(w).value;
  }

  /** Lines 38-44 keep, row by row, what `CompleteReviewRow` keeps. */
  lemma CompleteReviewsMeaning(us: seq<RatedReview>)
    ensures forall y :: y in CompleteReviews(us) <==> exists w :: w in us && CompleteReviewRow(w) == Some(y)
  {
    forall y | y in CompleteReviews(us) ensures exists w :: w in us && CompleteReviewRow(w) == Some(y) {
      CompleteReviewsFrom(us, y);
    }
    forall y | exists w :: w in us && CompleteReviewRow(w) == Some(y) ensures y in CompleteReviews(us) {
      var w :| w in us && CompleteReviewRow(w) == Some(y);
      CompleteReviewsTo(us, w);
    }
  }

  /** Lines 38-44 treat each row on its own: on two frames joined they give the two results joined. */
  lemma CompleteReviewsAppend(a: seq<RatedReview>, b: seq<RatedReview>)
    ensures CompleteReviews(a + b) == CompleteReviews(a) + CompleteReviews(b)
  {
    MapRowsAppend(a, b, WithReleaseDate);
    var da, db := MapRows(a, WithReleaseDate), MapRows(b, WithReleaseDate);
    MapRowsAppend(da, db, WithReviewCount);
    var ca, cb := MapRows(da, WithReviewCount), MapRows(db, WithReviewCount);
    FilterAppend(ca, cb, HasDateAndCount);
    MapRowsAppend(Filter(ca, HasDateAndCount), Filter(cb, HasDateAndCount), NormalizeTitle);
  }

  /** Lines 38-44 on a one-row frame give what that row becomes. */
  lemma CompleteReviewsOne(w: RatedReview)
    ensures CompleteReviews([w]) == Present(CompleteReviewRow(w))
  {
    var z := WithReviewCount(WithReleaseDate(w));
    assert MapRows([w], WithReleaseDate) == [WithReleaseDate(w)];
    assert MapRows([WithReleaseDate(w)], WithReviewCount) == [z];
    assert [z][1..] == [];
    if HasDateAndCount(z) {
      assert Filter([z], HasDateAndCount) == [z];
      assert MapRows([z], NormalizeTitle) == [NormalizeTitle(z)];
    } else {
      assert Filter([z], HasDateAndCount) == [];
    }
  }

  /**
    * Lines 38-44 keep, in order and one for one, the rows that survive on
    * their own: what `CompleteReviewRow` makes of each input row.
    */
  lemma CompleteReviewsRows(us: seq<RatedReview>)
    ensures CompleteReviews(us) == Somes(MapRows(us, CompleteReviewRow))
  {
    forall a, b ensures CompleteReviews(a + b) == CompleteReviews(a) + CompleteReviews(b) {
      CompleteReviewsAppend(a, b);
    }
    forall w ensures CompleteReviews([w]) == Present(CompleteReviewRow(w)) {
      CompleteReviewsOne(w);
    }
    RowByRow(us, CompleteReviews, CompleteReviewRow);
  }

  /** Lines 36-44 keep, row by row, what `FinishReviewRow` keeps. */
  lemma FinishReviewsMeaning(ws: seq<RatedReview>)
    ensures forall y :: y in FinishReviews(ws) <==> exists w :: w in ws && FinishReviewRow(w) == Some(y)
  {
    var kept := Filter(ws, HasReviewKeys);
    var unique := DropDuplicates(kept);
    FilterMembership(ws, HasReviewKeys);
    DropDuplicatesMeaning(kept);
    CompleteReviewsMeaning(unique);
  }

  /**
    * The ratings rules fail exactly when some row's stripped rating is
    * non-empty and not a numeral (more than one dot, or no digit), and then
    * with the error of the first such row.
    */
  lemma CleanReviewsFails(raw: seq<RawReview>)
    ensures CleanReviews(raw).Err? <==> exists i :: 0 <= i < |raw| && ExtractRating(raw[i].rating).Err?
    ensures CleanReviews(raw).Err? ==>
      exists i :: 0 <= i < |raw| && ExtractRating(raw[i].rating) == Err(CleanReviews(raw).error)
        && forall j :: 0 <= j < i ==> ExtractRating(raw[j].rating).Ok?
  {
    var t := TryMap(raw, WithRating);
    if t.Err? {
      assert CleanReviews(raw) == Err(t.error);
      var i :| 0 <= i < |raw| && WithRating(raw[i]) == Err(t.error) && forall j :: 0 <= j < i ==> WithRating(raw[j]).Ok?;
      assert ExtractRating(raw[i].rating) == Err(t.error);
    }
  }

  /**
    * A successful ratings cleaning is, in order and one for one, what lines
    * 38-44 make of each row left by lines 33-37.
    */
  lemma CleanReviewsRows(raw: seq<RawReview>)
    requires CleanReviews(raw).Ok?
    ensures TryMap(raw, WithRating).Ok?
    ensures CleanReviews(raw).value
      == Somes(MapRows(DropDuplicates(Filter(TryMap(raw, WithRating).value, HasReviewKeys)), CompleteReviewRow))
  {
    CleanReviewsOk(raw);
    CompleteReviewsRows(DropDuplicates(Filter(TryMap(raw, WithRating).value, HasReviewKeys)));
  }

  /**
    * Otherwise a row is in the table exactly when some raw row cleans to it
    * on its own; the order and the copies are fixed by `CleanReviewsRows`.
    */
  lemma CleanReviewsMeaning(raw: seq<RawReview>)
    requires CleanReviews(raw).Ok?
    ensures forall y :: y in CleanReviews(raw).value <==> exists x :: x in raw && CleanReviewRow(x) == Some(y)
  {
    forall y | y in CleanReviews(raw).value ensures exists x :: x in raw && CleanReviewRow(x) == Some(y) {
      CleanReviewsFrom(raw, y);
    }
    forall y | exists x :: x in raw && CleanReviewRow(x) == Some(y) ensures y in CleanReviews(raw).value {
      var x :| x in raw && CleanReviewRow(x) == Some(y);
      CleanReviewsTo(raw, x);
    }
  }

  /** Each row of a successful ratings run comes from one raw row. */
  lemma CleanReviewsFrom(raw: seq<RawReview>, y: Review)
    requires CleanReviews(raw).Ok? && y in CleanReviews(raw).value
    ensures exists x :: x in raw && CleanReviewRow(x) == Some(y)
  {
    var rated := TryMap(raw, WithRating).value;
    CleanReviewsOk(raw);
    FinishReviewsMeaning(rated);
    var w :| w in rated && FinishReviewRow(w) == Some(y);
    TryMapMembership(raw, WithRating);
    var x :| x in raw && WithRating(x) == Ok(w);
    assert CleanReviewRow(x) == Some(y);
  }

  /** Each raw row that survives on its own is in a successful ratings run. */
  lemma CleanReviewsTo(raw: seq<RawReview>, x: RawReview)
    requires CleanReviews(raw).Ok? && x in raw && CleanReviewRow(x).Some?
    ensures CleanReviewRow(x).value in CleanReviews(raw).value
  {
    var rated := TryMap(raw, WithRating).value;
    CleanReviewsOk(raw);
    TryMapMembership(raw, WithRating);
    assert WithRating(x).value in rated;
    FinishReviewsMeaning(rated);
  }

  // ---------------------------------------------------------------------------
  // Duplicates are judged on the text as read, before normalisation.

  /** A successful ratings run is lines 36-44 on the rated rows. */
  lemma CleanReviewsOk(raw: seq<RawReview>)
    requires TryMap(raw, WithRating).Ok?
    ensures CleanReviews(raw) == Ok(FinishReviews(TryMap(raw, WithRating).value))
  {
  }

  /** A successful sales run is lines 23-30 on the deduplicated rows with their years cast. */
  lemma CleanSalesOk(raw: seq<SalesRow>)
    requires TryMap(DropDuplicates(Filter(raw, HasSalesKeys)), WithYear).Ok?
    ensures CleanSales(raw) == Ok(FinishSales(TryMap(DropDuplicates(Filter(raw, HasSalesKeys)), WithYear).value))
  {
  }

  /** When every row survives lines 38-44, each is cleaned in place. */
  lemma CompleteReviewsAllKept(us: seq<RatedReview>)
    requires forall i :: 0 <= i < |us| ==> CompleteReviewRow(us[i]).Some?
    ensures |CompleteReviews(us)| == |us|
    ensures forall i :: 0 <= i < |us| ==> CompleteReviews(us)[i] == CompleteReviewRow(us[i]).value
  {
    var counted := MapRows(MapRows(us, WithReleaseDate), WithReviewCount);
    FilterAll(counted, HasDateAndCount);
  }

  /** Two ratings rows that read the same rating, and are equal otherwise, are duplicates: one survives. */
  lemma SameRatingMerges(a: RawReview, b: RawReview)
    requires WithRating(a).Ok? && WithRating(a) == WithRating(b)
    ensures CleanReviews([a, b]) == CleanReviews([a])
  {
    var w := WithRating(a).value;
    var t2 := TryMap([a, b], WithRating);
    assert [a, b][0] == a && [a, b][1] == b;
    assert t2.Ok? && t2.value == [w, w];
    var t1 := TryMap([a], WithRating);
    assert [a][0] == a;
    assert t1.Ok? && t1.value == [w];
    if HasReviewKeys(w) {
      assert Filter([w, w], HasReviewKeys) == [w, w];
      assert DropDuplicates([w, w]) == [w] by {
        assert [w, w][..1] == [w];
        assert HasKey([w], Identity, Identity(w));
        assert DropDuplicatesBy([w], Identity) == [w];
      }
    } else {
      assert Filter([w, w], HasReviewKeys) == [];
    }
  }

  /**
    * Two ratings rows that still differ after the rating is extracted (for
    * example only in the case of the title) and clean to the same row both
    * survive: duplicates are dropped before titles are normalised, so the
    * result can hold equal rows.
    */
  lemma TitleVariantsStay(a: RawReview, b: RawReview)
    requires CleanReviewRow(a).Some? && CleanReviewRow(a) == CleanReviewRow(b)
    requires WithRating(a) != WithRating(b)
    ensures CleanReviews([a, b]) == Ok([CleanReviewRow(a).value, CleanReviewRow(a).value])
  {
    var wa := WithRating(a).value;
    var wb := WithRating(b).value;
    TryMapPair(a, b, WithRating);
    CleanReviewsOk([a, b]);
    assert FinishReviewRow(wa) == CleanReviewRow(a) && FinishReviewRow(wb) == CleanReviewRow(b);
    FinishReviewsPair(wa, wb);
  }

  /** Lines 36-44 on two different rated rows that both survive. */
  lemma FinishReviewsPair(wa: RatedReview, wb: RatedReview)
    requires FinishReviewRow(wa).Some? && FinishReviewRow(wb).Some? && wa != wb
    ensures FinishReviews([wa, wb]) == [FinishReviewRow(wa).value, FinishReviewRow(wb).value]
  {
    assert HasReviewKeys(wa) && HasReviewKeys(wb);
    FinishReviewsDistinct([wa, wb]);
    assert CompleteReviewRow(wa) == FinishReviewRow(wa) && CompleteReviewRow(wb) == FinishReviewRow(wb);
    CompleteReviewsPair(wa, wb);
  }

  /** With every key column present and no repeated row, lines 36-37 drop nothing. */
  lemma FinishReviewsDistinct(ws: seq<RatedReview>)
    requires forall i :: 0 <= i < |ws| ==> HasReviewKeys(ws[i])
    requires NoDuplicates(ws)
    ensures FinishReviews(ws) == CompleteReviews(ws)
  {
    FilterAll(ws, HasReviewKeys);
    NoDuplicatesAsKeys(ws);
    DropDuplicatesNone(ws, Identity);
  }

  /** Lines 38-44 on two rows that both survive. */
  lemma CompleteReviewsPair(wa: RatedReview, wb: RatedReview)
    requires CompleteReviewRow(wa).Some? && CompleteReviewRow(wb).Some?
    ensures CompleteReviews([wa, wb]) == [CompleteReviewRow(wa).value, CompleteReviewRow(wb).value]
  {
    var da, db := WithReleaseDate(wa), WithReleaseDate(wb);
    MapRowsPair(wa, wb, WithReleaseDate);
    var ca, cb := WithReviewCount(da), WithReviewCount(db);
    MapRowsPair(da, db, WithReviewCount);
    assert HasDateAndCount(ca) && HasDateAndCount(cb);
    FilterAll([ca, cb], HasDateAndCount);
    MapRowsPair(ca, cb, NormalizeTitle);
  }

  /** Two sales rows that clean to the same row, but differ as read, both survive. */
  lemma SalesVariantsStay(a: SalesRow, b: SalesRow)
    requires CleanSalesRow(a).Some? && CleanSalesRow(a) == CleanSalesRow(b)
    requires a != b
    ensures CleanSales([a, b]) == Ok([CleanSalesRow(a).value, CleanSalesRow(a).value])
  {
    var wa := WithYear(a).value;
    var wb := WithYear(b).value;
    FilterAll([a, b], HasSalesKeys);
    assert Identity(a) != Identity(b);
    DropDuplicatesNone([a, b], Identity);
    TryMapPair(a, b, WithYear);
    CleanSalesOk([a, b]);
    var y := CleanSalesRow(a).value;
    assert FinishSalesRow(wa) == Some(y) && FinishSalesRow(wb) == Some(y);
    FinishSalesPair(wa, wb);
  }

  /** Lines 23-30 on two rows that both survive. */
  lemma FinishSalesPair(wa: SalesRow, wb: SalesRow)
    requires FinishSalesRow(wa).Some? && FinishSalesRow(wb).Some?
    ensures FinishSales([wa, wb]) == [FinishSalesRow(wa).value, FinishSalesRow(wb).value]
  {
    FilterAll([wa, wb], HasYear);
    CoerceFiguresRows([wa, wb], |SalesColumns|);
    var numeric := CoerceFigures([wa, wb], |SalesColumns|);
    assert numeric == [CoerceFiguresOf(wa, |SalesColumns|), CoerceFiguresOf(wb, |SalesColumns|)];
    FilterAll(numeric, HasFigures);
  }
}
