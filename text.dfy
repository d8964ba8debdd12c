/**
  * Character classes and string functions used by the cleaning rules:
  * the classes of the regular-expression strippers (a stripper is `Filter`
  * of `Frame` on the text), `str.lower`/`str.strip`, and the decimal
  * numerals that `float` and `pd.to_numeric` accept.
  */
module Text {
  import opened Wrappers
  import opened Frame

  predicate IsDigit(c: char) {
    '0' <= c <= '9'
  }

  /** The characters that survive `re.sub(r'[^0-9.]', '', ...)`. */
  predicate IsRatingChar(c: char) {
    IsDigit(c) || c == '.'
  }

  predicate IsUpper(c: char) {
    'A' <= c <= 'Z'
  }

  /**
    * The characters for which Python's `str.isspace` holds (29 code points);
    * they drive both `str.strip` and the regex class `\s`.
    */
  predicate IsSpace(c: char) {
    ('\U{9}' <= c <= '\U{D}') || ('\U{1C}' <= c <= '\U{20}') || c == '\U{85}' || c == '\U{A0}'
    || c == '\U{1680}' || ('\U{2000}' <= c <= '\U{200A}') || c == '\U{2028}' || c == '\U{2029}'
    || c == '\U{202F}' || c == '\U{205F}' || c == '\U{3000}'
  }

  predicate AllDigits(s: string) {
    forall i :: 0 <= i < |s| ==> IsDigit(s[i])
  }

  function Count(s: string, c: char): (r: nat) {
    if s == [] then 0 else (if s[0] == c then 1 else 0) + Count(s[1..], c)
  }

  /** `Count` is the multiplicity of the character in the text. */
  lemma {:induction false} CountMultiset(s: string, c: char)
    ensures Count(s, c) == multiset(s)[c]
  {
    if s != [] {
      CountMultiset(s[1..], c);
      assert s == [s[0]] + s[1..];
      assert multiset(s) == multiset([s[0]]) + multiset(s[1..]);
    }
  }

  // ---------------------------------------------------------------------------
  // `str.lower().str.strip()` (ASCII case mapping).

  function LowerChar(c: char): (d: char)
  {
    if IsUpper(c) then (c as int + 32) as char else c
  }

  function Lower(s: string): (r: string)
    ensures |r| == |s|
  {
    if s == [] then [] else [LowerChar(s[0])] + Lower(s[1..])
  }

  lemma LowerCharFacts(c: char)
    ensures !IsUpper(LowerChar(c))
    ensures IsSpace(LowerChar(c)) == IsSpace(c)
  {
  }

  /** Lowercasing keeps the length and the whitespace and leaves no upper-case letter. */
  lemma {:induction false} LowerAt(s: string)
    ensures |Lower(s)| == |s|
    ensures forall k :: 0 <= k < |s| ==> Lower(s)[k] == LowerChar(s[k])
  {
    if s != [] {
      LowerAt(s[1..]);
    }
  }

  lemma LowerFacts(s: string)
    ensures |Lower(s)| == |s|
    ensures forall k :: 0 <= k < |s| ==> !IsUpper(Lower(s)[k]) && (IsSpace(Lower(s)[k]) == IsSpace(s[k]))
  {
    LowerAt(s);
    forall k | 0 <= k < |s| ensures !IsUpper(Lower(s)[k]) && (IsSpace(Lower(s)[k]) == IsSpace(s[k])) {
      LowerCharFacts(s[k]);
    }
  }

  function TrimStart(s: string): (r: string)
    ensures |r| <= |s| && r == s[|s| - |r|..]
    ensures forall i :: 0 <= i < |s| - |r| ==> IsSpace(s[i])
    ensures r == [] || !IsSpace(r[0])
  {
    if s != [] && IsSpace(s[0]) then TrimStart(s[1..]) else s
  }

  function TrimEnd(s: string): (r: string)
    ensures |r| <= |s| && r == s[..|r|]
    ensures forall i :: |r| <= i < |s| ==> IsSpace(s[i])
    ensures r == [] || !IsSpace(r[|r| - 1])
  {
    if s != [] && IsSpace(s[|s| - 1]) then TrimEnd(s[..|s| - 1]) else s
  }

  function Strip(s: string): (r: string) {
    TrimEnd(TrimStart(s))
  }

  /** `str.lower().str.strip()`. */
  function Normalize(s: string): (r: string) {
    Strip(Lower(s))
  }

  /** Lowercase, and no whitespace at either end. */
  predicate IsNormal(s: string) {
    (forall i :: 0 <= i < |s| ==> !IsUpper(s[i])) && (s == [] || (!IsSpace(s[0]) && !IsSpace(s[|s| - 1])))
  }

  /** `TrimEnd` of a suffix: the piece kept and the whitespace after it, in terms of the whole text. */
  lemma {:induction false} TrimEndOfSuffix(s: string, i: nat) returns (j: nat)
    requires i <= |s|
    ensures i <= j <= |s| && TrimEnd(s[i..]) == s[i..j]
    ensures forall k :: j <= k < |s| ==> IsSpace(s[k])
  {
    var t := s[i..];
    var r := TrimEnd(t);
    j := i + |r|;
    assert r == t[..|r|];
    assert t[..|r|] == s[i..j];
    forall k | j <= k < |s| ensures IsSpace(s[k]) {
      assert s[k] == t[k - i];
    }
  }

  /** A stripped text neither starts nor ends with whitespace. */
  lemma StripEnds(s: string)
    ensures Strip(s) == [] || (!IsSpace(Strip(s)[0]) && !IsSpace(Strip(s)[|Strip(s)| - 1]))
  {
    var t := TrimStart(s);
    var r := TrimEnd(t);
    if r != [] {
      assert r == t[..|r|];
      assert r[0] == t[0];
    }
  }

  /** Stripping keeps the piece `s[i..j]` and drops only whitespace around it. */
  lemma StripMeaning(s: string) returns (i: nat, j: nat)
    ensures i <= j <= |s| && Strip(s) == s[i..j]
    ensures forall k :: 0 <= k < i ==> IsSpace(s[k])
    ensures forall k :: j <= k < |s| ==> IsSpace(s[k])
    ensures Strip(s) == [] || (!IsSpace(Strip(s)[0]) && !IsSpace(Strip(s)[|Strip(s)| - 1]))
  {
    var t := TrimStart(s);
    i := |s| - |t|;
    assert t == s[i..];
    j := TrimEndOfSuffix(s, i);
    StripEnds(s);
  }

  /**
    * Normalising keeps the contiguous piece `Lower(s)[i..j]` of the lowercased
    * input, drops only whitespace around it, and the piece is normal.
    */
  lemma NormalizeMeaning(s: string) returns (i: nat, j: nat)
    ensures i <= j <= |s| && Normalize(s) == Lower(s)[i..j]
    ensures forall k :: 0 <= k < i ==> IsSpace(s[k])
    ensures forall k :: j <= k < |s| ==> IsSpace(s[k])
    ensures IsNormal(Normalize(s))
  {
    LowerFacts(s);
    i, j := StripMeaning(Lower(s));
    var r := Normalize(s);
    forall k | 0 <= k < |r| ensures !IsUpper(r[k]) {
      assert r[k] == Lower(s)[i + k];
    }
  }

  lemma NormalOfNormal(s: string)
    requires IsNormal(s)
    ensures Normalize(s) == s
  {
    LowerOfLower(s);
    assert TrimStart(s) == s;
  }

  lemma {:induction false} LowerOfLower(s: string)
    requires forall i :: 0 <= i < |s| ==> !IsUpper(s[i])
    ensures Lower(s) == s
  {
    if s != [] {
      LowerOfLower(s[1..]);
    }
  }

  /** Normalising twice is normalising once. */
  lemma NormalizeIdempotent(s: string)
    ensures Normalize(Normalize(s)) == Normalize(s)
  {
    var _, _ := NormalizeMeaning(s);
    NormalOfNormal(Normalize(s));
  }

  // ---------------------------------------------------------------------------
  // Digit strings.

  function DigitValue(c: char): (r: nat)
    requires IsDigit(c)
  {
    c as int - '0' as int
  }

  function DigitChar(d: nat): (c: char)
    requires d < 10
    ensures IsDigit(c) && DigitValue(c) == d
  {
    ('0' as int + d) as char
  }

  function Pow10(n: nat): (p: nat)
    ensures p >= 1
  {
    if n == 0 then 1 else 10 * Pow10(n - 1)
  }

  /** The value of a decimal digit string; the empty string counts as 0. */
  function DigitsValue(s: string): (r: nat)
    requires AllDigits(s)
  {
    if s == [] then 0 else DigitsValue(s[..|s| - 1]) * 10 + DigitValue(s[|s| - 1])
  }

  /** `str(n)` for a natural number. */
  function NatText(n: nat): (s: string)
    ensures AllDigits(s) && |s| >= 1
  {
    if n < 10 then [DigitChar(n)] else NatText(n / 10) + [DigitChar(n % 10)]
  }

  lemma {:induction false} NatTextValue(n: nat)
    ensures DigitsValue(NatText(n)) == n
  {
    if n >= 10 {
      NatTextValue(n / 10);
      var s := NatText(n);
      assert s[..|s| - 1] == NatText(n / 10);
    }
  }

  lemma {:induction false} NatTextLength(n: nat, k: nat)
    requires Pow10(k) <= n < Pow10(k + 1)
    ensures |NatText(n)| == k + 1
  {
    if k > 0 {
      NatTextLength(n / 10, k - 1);
    }
  }

  // ---------------------------------------------------------------------------
  // Decimal numerals: an optional integer part, an optional `.` and fraction, at least one digit.

  function IndexOf(s: string, c: char): (k: nat)
    ensures k <= |s|
    ensures forall i :: 0 <= i < k ==> s[i] != c
    ensures k < |s| ==> s[k] == c
  {
    if s == [] then 0 else if s[0] == c then 0 else 1 + IndexOf(s[1..], c)
  }

  predicate IsDecimalBody(s: string) {
    var k := IndexOf(s, '.');
    if k == |s| then |s| >= 1 && AllDigits(s) else |s| >= 2 && AllDigits(s[..k]) && AllDigits(s[k + 1..])
  }

  function DecimalValue(s: string): (x: real)
    requires IsDecimalBody(s)
    ensures x >= 0.0
  {
    var k := IndexOf(s, '.');
    if k == |s| then DigitsValue(s) as real
    else DigitsValue(s[..k]) as real + DigitsValue(s[k + 1..]) as real / Pow10(|s| - k - 1) as real
  }

  /**
    * `pd.to_numeric` on text: an optional sign and a decimal numeral; anything
    * else is absent under `errors='coerce'`.
    */
  function ParseNumber(t: string): (r: Option<real>)
  {
    if t != [] && (t[0] == '+' || t[0] == '-') then
      if IsDecimalBody(t[1..]) then Some(if t[0] == '-' then -DecimalValue(t[1..]) else DecimalValue(t[1..])) else None
    else if IsDecimalBody(t) then Some(DecimalValue(t)) else None
  }

  lemma IndexOfAbsent(s: string, c: char)
    requires forall i :: 0 <= i < |s| ==> s[i] != c
    ensures IndexOf(s, c) == |s|
  {
  }

  /** A natural number written out in digits parses back to itself. */
  lemma ParseNatText(n: nat)
    ensures ParseNumber(NatText(n)) == Some(n as real)
  {
    var t := NatText(n);
    IndexOfAbsent(t, '.');
    NatTextValue(n);
  }

  lemma {:induction false} CountNone(s: string, c: char)
    requires forall i :: 0 <= i < |s| ==> s[i] != c
    ensures Count(s, c) == 0
  {
    if s != [] {
      CountNone(s[1..], c);
    }
  }

  lemma {:induction false} CountSplit(s: string, k: nat, c: char)
    requires k <= |s|
    ensures Count(s, c) == Count(s[..k], c) + Count(s[k..], c)
  {
    if k > 0 {
      CountSplit(s[1..], k - 1, c);
      assert s[1..][..k - 1] == s[..k][1..];
      assert s[1..][k - 1..] == s[k..];
    }
  }

  lemma {:induction false} CountSome(s: string, c: char, i: nat)
    requires i < |s| && s[i] == c
    ensures Count(s, c) >= 1
  {
    if i > 0 {
      CountSome(s[1..], c, i - 1);
    }
  }

  /**
    * Python's `float` on a string of digits and dots: it succeeds exactly when
    * there is at most one dot and at least one digit.
    */
  lemma FloatRule(s: string)
    requires forall i :: 0 <= i < |s| ==> IsRatingChar(s[i])
    ensures IsDecimalBody(s) <==> Count(s, '.') <= 1 && exists i :: 0 <= i < |s| && IsDigit(s[i])
  {
    if IndexOf(s, '.') == |s| {
      FloatWithoutDot(s);
    } else {
      FloatWithDot(s);
    }
  }

  /** Digits only: a numeral exactly when there is at least one. */
  lemma FloatWithoutDot(s: string)
    requires forall i :: 0 <= i < |s| ==> IsRatingChar(s[i])
    requires IndexOf(s, '.') == |s|
    ensures IsDecimalBody(s) <==> Count(s, '.') <= 1 && exists i :: 0 <= i < |s| && IsDigit(s[i])
  {
    CountNone(s, '.');
    assert AllDigits(s);
    if |s| >= 1 {
      assert IsDigit(s[0]);
    }
  }

  /** A first dot at `k`: a numeral exactly when no dot follows and a digit stands on either side. */
  lemma FloatWithDot(s: string)
    requires forall i :: 0 <= i < |s| ==> IsRatingChar(s[i])
    requires IndexOf(s, '.') < |s|
    ensures IsDecimalBody(s) <==> Count(s, '.') <= 1 && exists i :: 0 <= i < |s| && IsDigit(s[i])
  {
    var k := IndexOf(s, '.');
    DotsAfterFirst(s);
    assert AllDigits(s[..k]);
    if AllDigits(s[k + 1..]) {
      DigitsAfterDot(s, k);
    } else {
      DotAfterDot(s, k);
    }
  }

  /** Only digits after the first dot: one dot, and a numeral exactly when some digit is there. */
  lemma DigitsAfterDot(s: string, k: nat)
    requires k == IndexOf(s, '.') < |s| && AllDigits(s[..k]) && AllDigits(s[k + 1..])
    requires Count(s, '.') == 1 + Count(s[k + 1..], '.')
    ensures IsDecimalBody(s) <==> Count(s, '.') <= 1 && exists i :: 0 <= i < |s| && IsDigit(s[i])
  {
    var f := s[k + 1..];
    CountNone(f, '.');
    assert Count(s, '.') == 1;
    if |s| >= 2 {
      var i0 := if k > 0 then 0 else k + 1;
      assert k > 0 ==> s[..k][0] == s[0];
      assert k == 0 ==> f[0] == s[k + 1];
      assert IsDigit(s[i0]);
      assert IsDecimalBody(s);
    } else {
      assert k == 0 && |s| == 1;
      assert !IsDigit(s[0]);
      assert !IsDecimalBody(s);
    }
  }

  /** Something other than a digit after the first dot is a second dot: not a numeral. */
  lemma DotAfterDot(s: string, k: nat)
    requires forall i :: 0 <= i < |s| ==> IsRatingChar(s[i])
    requires k == IndexOf(s, '.') < |s| && !AllDigits(s[k + 1..])
    requires Count(s, '.') == 1 + Count(s[k + 1..], '.')
    ensures !IsDecimalBody(s) && Count(s, '.') > 1
  {
    var f := s[k + 1..];
    var j :| 0 <= j < |f| && !IsDigit(f[j]);
    assert s[k + 1 + j] == f[j];
    CountSome(f, '.', j);
  }

  /** The dots of a text are its first dot and those after it. */
  lemma DotsAfterFirst(s: string)
    requires IndexOf(s, '.') < |s|
    ensures Count(s, '.') == 1 + Count(s[IndexOf(s, '.') + 1..], '.')
  {
    var k := IndexOf(s, '.');
    CountSplit(s, k, '.');
    CountNone(s[..k], '.');
    assert s[k..] == [s[k]] + s[k + 1..];
  }
}
