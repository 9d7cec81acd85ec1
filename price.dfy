/** `clean_price`: the price normaliser. It finds the first maximal run of
    characters from the class `[\d.]` (what `re.findall(r'[\d.]+', text)[0]`
    yields) and converts it with Python's `float()`, which raises ValueError
    on a run that is a lone "." or holds two dots. Values are exact decimals
    (`real`), not IEEE doubles. */
module Price {
  import opened Wrappers

  /** What `float(token)` gives: a value, or a raised ValueError. */
  datatype Parsed = Value(value: real) | ValueError

  predicate IsDigit(c: char) {
    '0' <= c <= '9'
  }

  /** A member of the regular-expression class `[\d.]`. */
  predicate IsNumChar(c: char) {
    IsDigit(c) || c == '.'
  }

  predicate AllDigits(t: string) {
    forall k | 0 <= k < |t| :: IsDigit(t[k])
  }

  predicate AllNumChars(t: string) {
    forall k | 0 <= k < |t| :: IsNumChar(t[k])
  }

  /** Index of the first character of `s` in `[\d.]`, or `|s|` if there is none. */
  function RunStart(s: string): (i: nat)
    ensures i <= |s|
    ensures forall k | 0 <= k < i :: !IsNumChar(s[k])
    ensures i < |s| ==> IsNumChar(s[i])
  {
    if s == [] || IsNumChar(s[0]) then 0 else 1 + RunStart(s[1..])
  }

  /** End of the maximal run of `[\d.]` characters that starts at `i`. */
  function RunEnd(s: string, i: nat): (j: nat)
    requires i <= |s|
    ensures i <= j <= |s|
    ensures forall k | i <= k < j :: IsNumChar(s[k])
    ensures j < |s| ==> !IsNumChar(s[j])
    decreases |s| - i
  {
    if i == |s| || !IsNumChar(s[i]) then i else RunEnd(s, i + 1)
  }

  /** The first match of `[\d.]+` in `s`, if any. */
  function FirstRun(s: string): (r: Option<string>)
    ensures r.None? <==> forall k | 0 <= k < |s| :: !IsNumChar(s[k])
    ensures r.Some? ==> |r.value| > 0 && AllNumChars(r.value)
  {
    var i := RunStart(s);
    if i == |s| then None else Some(s[i..RunEnd(s, i)])
  }

  /** Index of the first '.' in `t`, or `|t|` if there is none. */
  function DotIndex(t: string): (i: nat)
    ensures i <= |t|
    ensures forall k | 0 <= k < i :: t[k] != '.'
    ensures i < |t| ==> t[i] == '.'
  {
    if t == [] || t[0] == '.' then 0 else 1 + DotIndex(t[1..])
  }

  function DigitValue(c: char): nat
    requires IsDigit(c)
  {
    (c as int) - ('0' as int)
  }

  /** The number a string of decimal digits denotes ("" denotes 0). */
  function DigitsValue(d: string): nat
    requires AllDigits(d)
  {
    if d == [] then 0 else DigitsValue(d[..|d| - 1]) * 10 + DigitValue(d[|d| - 1])
  }

  function Pow10(n: nat): (p: nat)
    ensures p >= 1
  {
    if n == 0 then 1 else 10 * Pow10(n - 1)
  }

  /** Python's `float(token)` on a token of `[\d.]` characters: digits with
      at most one '.', and at least one digit, parse to the exact decimal
      they denote; anything else raises. */
  function ParseFloat(token: string): (r: Parsed)
    requires AllNumChars(token)
    ensures r.Value? ==> r.value >= 0.0
  {
    var i := DotIndex(token);
    if i == |token| then
      if token == [] then ValueError else Value(DigitsValue(token) as real)
    else
      var whole, frac := token[..i], token[i + 1..];
      if !AllDigits(frac) || (whole == [] && frac == []) then ValueError
      else Value(DecimalValue(whole, frac))
  }

  /** The exact value of the decimal `whole.frac`. */
  function DecimalValue(whole: string, frac: string): (v: real)
    requires AllDigits(whole) && AllDigits(frac)
    ensures v >= 0.0
  {
    DigitsValue(whole) as real + DigitsValue(frac) as real / Pow10(|frac|) as real
  }

  /** `clean_price(text)`. Empty text and text with no digit or '.' give 0.0;
      otherwise the first run decides, and the value is never negative. */
  function CleanPrice(text: string): (r: Parsed)
    ensures (forall k | 0 <= k < |text| :: !IsNumChar(text[k])) ==> r == Value(0.0)
    ensures r.Value? ==> r.value >= 0.0
  {
    if text == [] then Value(0.0)
    else match FirstRun(text)
      case None => Value(0.0)
      case Some(token) => ParseFloat(token)
  }

  /** A price element's value inside its `try`: the parsed price, or 0.0
      when the element is missing or `clean_price` raises. */
  function PriceOrZero(text: Option<string>): (r: real)
    ensures r >= 0.0
    ensures text.Some? && CleanPrice(text.value).Value? ==> r == CleanPrice(text.value).value
    ensures r != 0.0 ==> text.Some? && CleanPrice(text.value) == Value(r)
  {
    match text
    case None => 0.0
    case Some(t) =>
      match CleanPrice(t)
      case Value(v) => v
      case ValueError => 0.0
  }

  /** The value a present, parsable price element yields. */
  function PriceOf(text: Option<string>): (r: Option<real>)
    ensures r.Some? ==> r.value >= 0.0 && text.Some? && CleanPrice(text.value) == Value(r.value)
    ensures r.None? ==> text.None? || CleanPrice(text.value) == ValueError
  {
    if text.Some? && CleanPrice(text.value).Value? then Some(CleanPrice(text.value).value) else None
  }

  /** The token holds a '.' at two different positions. */
  ghost predicate HasTwoDots(t: string) {
    exists i, j | 0 <= i < j < |t| :: t[i] == '.' && t[j] == '.'
  }

  /** `float()` raises on a non-empty `[\d.]` token exactly when the token is
      a lone "." or has two dots. */
  lemma ParseFloatRaises(token: string)
    requires |token| > 0 && AllNumChars(token)
    ensures ParseFloat(token).ValueError? <==> token == "." || HasTwoDots(token)
  {
    var i := DotIndex(token);
    if i < |token| {
      var frac := token[i + 1..];
      if !AllDigits(frac) {
        var k :| 0 <= k < |frac| && !IsDigit(frac[k]);
        assert token[i] == '.' && token[i + 1 + k] == '.';
      }
      if HasTwoDots(token) {
        var p, q :| 0 <= p < q < |token| && token[p] == '.' && token[q] == '.';
        assert p >= i;
        assert !IsDigit(frac[q - i - 1]);
      }
      if token[..i] == [] && frac == [] {
        assert token == [token[0]];
      }
    } else {
      assert !HasTwoDots(token);
    }
  }

  /** `clean_price` raises exactly when the first run is "." or has two dots;
      every other text yields a value. */
  lemma CleanPriceRaises(text: string)
    ensures CleanPrice(text).ValueError? <==>
      FirstRun(text).Some? && (FirstRun(text).value == "." || HasTwoDots(FirstRun(text).value))
  {
    if FirstRun(text).Some? {
      ParseFloatRaises(FirstRun(text).value);
    }
  }

  /** Text after the first run does not matter: once the run has ended
      (`text` contains a run and ends in a character outside `[\d.]`),
      anything appended is ignored. */
  lemma LaterTextIgnored(text: string, tail: string)
    requires exists k | 0 <= k < |text| :: IsNumChar(text[k])
    requires !IsNumChar(text[|text| - 1])
    ensures CleanPrice(text + tail) == CleanPrice(text)
  {
    var s := text + tail;
    var i := RunStart(text);
    RunStartAt(s, i);
    var j := RunEnd(text, i);
    RunEndAt(s, i, j);
    assert s[i..j] == text[i..j];
  }

  /** `RunStart` is determined by its contract. */
  lemma RunStartAt(s: string, i: nat)
    requires i < |s| && IsNumChar(s[i])
    requires forall k | 0 <= k < i :: !IsNumChar(s[k])
    ensures RunStart(s) == i
  {
  }

  /** `RunEnd` is determined by its contract. */
  lemma RunEndAt(s: string, i: nat, j: nat)
    requires i <= j <= |s|
    requires forall k | i <= k < j :: IsNumChar(s[k])
    requires j < |s| ==> !IsNumChar(s[j])
    ensures RunEnd(s, i) == j
  {
  }

  /** `DotIndex` is determined by its contract. */
  lemma DotIndexAt(t: string, i: nat)
    requires i < |t| && t[i] == '.'
    requires forall k | 0 <= k < i :: t[k] != '.'
    ensures DotIndex(t) == i
  {
  }

  function Digit(d: nat): (c: char)
    requires d < 10
    ensures IsDigit(c) && DigitValue(c) == d
  {
    ('0' as int + d) as char
  }

  /** Decimal rendering of a natural number, without leading zeros. */
  function ShowNat(n: nat): (r: string)
    ensures |r| > 0 && AllDigits(r)
  {
    if n < 10 then [Digit(n)] else ShowNat(n / 10) + [Digit(n % 10)]
  }

  lemma {:induction false} ShowNatValue(n: nat)
    ensures DigitsValue(ShowNat(n)) == n
  {
    if n >= 10 {
      ShowNatValue(n / 10);
      var s := ShowNat(n);
      assert s[..|s| - 1] == ShowNat(n / 10);
    }
  }

  /** A price given in cents, rendered the way a storefront shows it: "30.00". */
  function ShowCents(cents: nat): (r: string)
    ensures |r| > 0 && AllNumChars(r)
  {
    var c := cents % 100;
    ShowNat(cents / 100) + "." + [Digit(c / 10), Digit(c % 10)]
  }

  /** A run of `[\d.]` characters after a prefix free of them is the first run. */
  lemma FirstRunAfter(prefix: string, token: string)
    requires forall k | 0 <= k < |prefix| :: !IsNumChar(prefix[k])
    requires |token| > 0 && AllNumChars(token)
    ensures FirstRun(prefix + token) == Some(token)
  {
    var s := prefix + token;
    RunStartAt(s, |prefix|);
    RunEndAt(s, |prefix|, |s|);
    assert s[|prefix|..|s|] == token;
  }

  /** `float()` reads a rendered cents amount back exactly. */
  lemma ParseCents(cents: nat)
    ensures ParseFloat(ShowCents(cents)) == Value(cents as real / 100.0)
  {
    var token := ShowCents(cents);
    var whole := ShowNat(cents / 100);
    var c := cents % 100;
    var frac := [Digit(c / 10), Digit(c % 10)];
    assert token == whole + "." + frac;
    ParseDecimal(whole, frac);
    assert DigitsValue(whole) == cents / 100 by {
      ShowNatValue(cents / 100);
    }
    TwoDigitsValue(c);
    assert Pow10(|frac|) == 100;
    CentsValue(cents / 100, c);
  }

  /** Digits, a '.', and digits read as the exact decimal they denote. */
  lemma ParseDecimal(whole: string, frac: string)
    requires AllDigits(whole) && AllDigits(frac) && (whole != [] || frac != [])
    ensures AllNumChars(whole + "." + frac)
    ensures ParseFloat(whole + "." + frac) == Value(DecimalValue(whole, frac))
  {
    var token := whole + "." + frac;
    DecimalToken(whole, frac);
    assert token[..|whole|] == whole;
    assert token[|whole| + 1..] == frac;
  }

  /** Such a token is made of `[\d.]` characters and its first '.' follows the whole part. */
  lemma DecimalToken(whole: string, frac: string)
    requires AllDigits(whole) && AllDigits(frac)
    ensures AllNumChars(whole + "." + frac)
    ensures DotIndex(whole + "." + frac) == |whole|
  {
    var token := whole + "." + frac;
    var i := |whole|;
    forall k | 0 <= k < |token|
      ensures IsNumChar(token[k]) && (k < i ==> token[k] != '.')
    {
      if k < i {
        assert token[k] == whole[k];
      } else if k > i {
        assert token[k] == frac[k - i - 1];
      }
    }
    DotIndexAt(token, i);
  }

  /** Two rendered digits read back as the number below 100 they show. */
  lemma TwoDigitsValue(c: nat)
    requires c < 100
    ensures DigitsValue([Digit(c / 10), Digit(c % 10)]) == c
  {
    var frac := [Digit(c / 10), Digit(c % 10)];
    assert frac[..1] == [Digit(c / 10)];
    assert [Digit(c / 10)][..0] == [];
    assert DigitsValue([Digit(c / 10)]) == c / 10;
  }

  /** Whole units plus hundredths, as one exact decimal. */
  lemma CentsValue(units: nat, c: nat)
    ensures units as real + c as real / 100.0 == (units * 100 + c) as real / 100.0
  {
  }

  /** Normalising an already normal price string gives back its value, with
      any currency prefix free of digits and dots in front of it:
      "$30.00" and "30.00" both give 30. */
  lemma PriceRoundTrip(prefix: string, cents: nat)
    requires forall k | 0 <= k < |prefix| :: !IsNumChar(prefix[k])
    ensures CleanPrice(prefix + ShowCents(cents)) == Value(cents as real / 100.0)
  {
    FirstRunAfter(prefix, ShowCents(cents));
    ParseCents(cents);
  }

  /** A storefront price with its currency sign. */
  lemma ExampleDollarPrice()
    ensures CleanPrice("$30.00") == Value(30.0)
  {
    var t := "$30.00";
    RunStartAt(t, 1);
    RunEndAt(t, 1, 6);
    assert t[1..6] == "30.00";
    ExampleToken();
  }

  /** The token of that price: "30" before the '.', "00" after it. */
  lemma ExampleToken()
    ensures ParseFloat("30.00") == Value(30.0)
  {
    var token := "30.00";
    DotIndexAt(token, 2);
    assert token[..2] == "30" && token[3..] == "00";
    assert DigitsValue("3") == 3 && DigitsValue("0") == 0;
  }

  /** A '.' that ends a word before the price is the first run, and `float(".")` raises. */
  lemma ExampleSaleRaises()
    ensures CleanPrice("Sale. $30").ValueError?
  {
    var t := "Sale. $30";
    RunStartAt(t, 4);
    RunEndAt(t, 4, 5);
    assert t[4..5] == ".";
  }
}
