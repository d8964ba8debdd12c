/** Worked values: the cleaning rules applied to concrete cells. */
module Examples {
  import opened Wrappers
  import opened Frame
  import opened Text
  import opened Cleaning

  lemma NoRatingInWord()
    ensures Filter(" stars", IsRatingChar) == ""
  {
    FilterEmpty(" stars", IsRatingChar);
  }

  lemma RatingKept()
    ensures Filter("4.5", IsRatingChar) == "4.5"
  {
  }

  /** Words around a rating are dropped: "4.5 stars" is 4.5. */
  lemma RatingWithWords()
    ensures ExtractRating(Some("4.5 stars")) == Ok(Some(4.5))
  {
    FilterAppend("4.5", " stars", IsRatingChar);
    NoRatingInWord();
    RatingKept();
    FourPointFive();
  }

  /** A text with two dots is no float, and aborts the run. */
  lemma RatingTwoDots()
    ensures ExtractRating(Some("1.2.3")) == Err(RatingNotNumeric("1.2.3"))
  {
    assert Filter("1.2.3", IsRatingChar) == "1.2.3";
    assert IndexOf("1.2.3", '.') == 1;
    assert !AllDigits("2.3") by { assert "2.3"[1] == '.'; }
  }

  /** A text without digits, and a missing cell ("nan"), give a missing rating. */
  lemma RatingMissing()
    ensures ExtractRating(Some("N/A")) == Ok(None)
    ensures ExtractRating(None) == Ok(None)
  {
    assert Filter("N/A", IsRatingChar) == "";
    assert Filter("nan", IsRatingChar) == "";
  }

  lemma DigitsValue1234()
    ensures DigitsValue("1234") == 1234
  {
    assert "1234"[..3] == "123" && "123"[..2] == "12" && "12"[..1] == "1" && "1"[..0] == "";
  }

  lemma NoDigitsInWord()
    ensures Filter(" reviews", IsDigit) == ""
  {
    FilterEmpty(" reviews", IsDigit);
  }

  lemma DigitsOfThousands()
    ensures Filter("1,234", IsDigit) == "1234"
  {
  }

  lemma KeepDigitsComma()
    ensures Filter("1,234 reviews", IsDigit) == "1234"
  {
    FilterAppend("1,234", " reviews", IsDigit);
    DigitsOfThousands();
    NoDigitsInWord();
  }

  /** "1,234 reviews" counts 1234. */
  lemma ReviewCountWithComma()
    ensures ReviewCount(Some("1,234 reviews")) == Some(1234)
  {
    KeepDigitsComma();
    DigitsValue1234();
  }

  /** An abbreviated count loses its scale: "3.9K" counts 39. */
  lemma ReviewCountAbbreviated()
    ensures ReviewCount(Some("3.9K")) == Some(39)
  {
    assert Filter("3.9K", IsDigit) == "39";
    assert "39"[..1] == "3" && "3"[..0] == "";
    assert DigitsValue("3") == 3;
    assert DigitsValue("39") == 39;
  }

  /** A missing count stays missing. */
  lemma ReviewCountMissing()
    ensures ReviewCount(None) == None
  {
    assert Filter("nan", IsDigit) == "";
  }

  /** A Year that is no number is coerced to missing; a whole one is cast; a fraction raises. */
  lemma YearExamples()
    ensures CoerceYear(Some(Raw("N/A"))) == Ok(None)
    ensures CoerceYear(Some(Decimal(2006.0))) == Ok(Some(Integer(2006)))
    ensures CoerceYear(Some(Decimal(2006.5))) == Err(YearNotWhole(2006.5))
  {
    assert IndexOf("N/A", '.') == 3;
    assert !AllDigits("N/A") by { assert !IsDigit("N/A"[0]); }
  }

  lemma FourPointFive()
    ensures IsDecimalBody("4.5") && DecimalValue("4.5") == 4.5
  {
    assert IndexOf("4.5", '.') == 1;
    assert "4.5"[..1] == "4" && "4.5"[2..] == "5";
    assert DigitsValue("4") == 4 && DigitsValue("5") == 5;
  }

  lemma FourPointFifty()
    ensures IsDecimalBody("4.50") && DecimalValue("4.50") == 4.5
  {
    assert IndexOf("4.50", '.') == 1;
    assert "4.50"[..1] == "4" && "4.50"[2..] == "50";
    assert "50"[..1] == "5" && "5"[..0] == "";
    assert DigitsValue("4") == 4 && DigitsValue("50") == 50;
  }

  /** "4.50" and "4.5" read the same rating, so rows differing only there are duplicates. */
  lemma TrailingZeroRating()
    ensures ExtractRating(Some("4.50")) == Ok(Some(4.5))
    ensures ExtractRating(Some("4.50")) == ExtractRating(Some("4.5"))
  {
    assert Filter("4.50", IsRatingChar) == "4.50";
    assert Filter("4.5", IsRatingChar) == "4.5";
    FourPointFive();
    FourPointFifty();
  }

  lemma LettersAreNoSpace()
    ensures !IsSpace('h') && !IsSpace('o')
  {
  }

  lemma HaloNormal()
    ensures IsNormal("halo")
  {
    LettersAreNoSpace();
  }

  /** A capital is lowered: "Halo" normalises to "halo". */
  lemma TitleCapital()
    ensures Normalize("Halo") == "halo"
  {
    assert Lower("Halo") == "halo";
    HaloNormal();
    NormalOfNormal("halo");
  }

  /** A trailing space is stripped: "halo " normalises to "halo". */
  lemma TitleSpaced()
    ensures Normalize("halo ") == "halo"
  {
    LettersAreNoSpace();
    assert Lower("halo ") == "halo ";
    assert TrimStart("halo ") == "halo ";
    assert "halo "[..4] == "halo";
    assert TrimEnd("halo ") == TrimEnd("halo");
  }
}
