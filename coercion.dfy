/**
 * Cell coercion in the CSV ingestion path: `parseMaybeCurrency` (server.js:296-301)
 * and the sanitising `replace(/[^\w\s-]/gi, '')` applied to non-NUMERIC cells
 * (server.js:183). Both regular-expression replacements remove, character by
 * character, what lies outside a character class; `KeepOnly` is that operation.
 */
module Coercion {
  import opened Wrappers
  import opened JsValues

  // ---------------------------------------------------------------------------
  // Character-class filtering
  // ---------------------------------------------------------------------------

  /** The characters of `s` that satisfy `keep`, in their original order. */
  function KeepOnly(s: string, keep: char -> bool): (r: string)
    ensures |r| <= |s|
    ensures forall i :: 0 <= i < |r| ==> keep(r[i])
  {
    if s == [] then []
    else (if keep(s[0]) then [s[0]] else []) + KeepOnly(s[1..], keep)
  }

  /** Filtering commutes with concatenation: kept characters stay in order, nothing is reordered. */
  lemma {:induction false} KeepOnlyAppend(s: string, t: string, keep: char -> bool)
    ensures KeepOnly(s + t, keep) == KeepOnly(s, keep) + KeepOnly(t, keep)
  {
    if s == [] {
      assert s + t == t;
    } else {
      assert (s + t)[0] == s[0];
      assert (s + t)[1..] == s[1..] + t;
      KeepOnlyAppend(s[1..], t, keep);
    }
  }

  /** A string is left unchanged exactly when every character is kept. */
  lemma {:induction false} KeepOnlyUnchanged(s: string, keep: char -> bool)
    ensures KeepOnly(s, keep) == s <==> forall i :: 0 <= i < |s| ==> keep(s[i])
  {
    if s != [] {
      KeepOnlyUnchanged(s[1..], keep);
      if !keep(s[0]) {
        assert |KeepOnly(s, keep)| < |s|;
      }
    }
  }

  /** Every kept character keeps its number of occurrences; every other character is gone. */
  lemma {:induction false} KeepOnlyCounts(s: string, keep: char -> bool)
    ensures forall c :: multiset(KeepOnly(s, keep))[c] == if keep(c) then multiset(s)[c] else 0
  {
    if s != [] {
      KeepOnlyCounts(s[1..], keep);
      assert s == [s[0]] + s[1..];
      assert multiset(s) == multiset([s[0]]) + multiset(s[1..]);
    }
  }

  /** Filtering twice is filtering once. */
  lemma KeepOnlyIdempotent(s: string, keep: char -> bool)
    ensures KeepOnly(KeepOnly(s, keep), keep) == KeepOnly(s, keep)
  {
    KeepOnlyUnchanged(KeepOnly(s, keep), keep);
  }

  // ---------------------------------------------------------------------------
  // Character classes of the two regular expressions
  // ---------------------------------------------------------------------------

  /** The class `[0-9.-]` kept by `parseMaybeCurrency`. */
  predicate IsNumericChar(c: char) {
    ('0' <= c <= '9') || c == '.' || c == '-'
  }

  predicate IsDigit(c: char) {
    '0' <= c <= '9'
  }

  /** `\w` without the `u` flag (the `i` flag adds nothing to it): `[A-Za-z0-9_]`. */
  predicate IsWordChar(c: char) {
    ('A' <= c <= 'Z') || ('a' <= c <= 'z') || ('0' <= c <= '9') || c == '_'
  }

  /** `\s`: ECMAScript WhiteSpace and LineTerminator code points. */
  predicate IsJsWhitespace(c: char) {
    || c == '\t' || c == '\n' || c == '\U{000B}' || c == '\U{000C}' || c == '\r'
    || c == ' ' || c == '\U{00A0}' || c == '\U{1680}'
    || ('\U{2000}' <= c <= '\U{200A}')
    || c == '\U{2028}' || c == '\U{2029}' || c == '\U{202F}' || c == '\U{205F}'
    || c == '\U{3000}' || c == '\U{FEFF}'
  }

  /** The class `[\w\s-]` kept by the sanitiser. */
  predicate IsSanitizedChar(c: char) {
    IsWordChar(c) || IsJsWhitespace(c) || c == '-'
  }

  /** `value.replace(/[^0-9.-]+/g, '')`. */
  function StripNonNumeric(s: string): (r: string)
    ensures forall i :: 0 <= i < |r| ==> IsNumericChar(r[i])
    ensures r == s <==> forall i :: 0 <= i < |s| ==> IsNumericChar(s[i])
  {
    KeepOnlyUnchanged(s, IsNumericChar);
    KeepOnly(s, IsNumericChar)
  }

  /** `cell.replace(/[^\w\s-]/gi, '')`. */
  function Sanitize(s: string): (r: string)
    ensures forall i :: 0 <= i < |r| ==> IsSanitizedChar(r[i])
    ensures r == s <==> forall i :: 0 <= i < |s| ==> IsSanitizedChar(s[i])
  {
    KeepOnlyUnchanged(s, IsSanitizedChar);
    KeepOnly(s, IsSanitizedChar)
  }

  // ---------------------------------------------------------------------------
  // Number() on the strings StripNonNumeric produces
  // ---------------------------------------------------------------------------

  function Pow10(n: nat): (p: nat)
    ensures p >= 1
  {
    if n == 0 then 1 else 10 * Pow10(n - 1)
  }

  predicate AllDigits(s: string) {
    forall i :: 0 <= i < |s| ==> IsDigit(s[i])
  }

  /** The natural number a string of decimal digits denotes (leading zeros allowed). */
  function DigitsValue(s: string): nat
    requires AllDigits(s)
  {
    if s == [] then 0
    else DigitsValue(s[..|s| - 1]) * 10 + (s[|s| - 1] - '0') as nat
  }

  function IndexOfDot(s: string): (i: nat)
    requires '.' in s
    ensures i < |s| && s[i] == '.' && '.' !in s[..i]
  {
    if s[0] == '.' then 0 else 1 + IndexOfDot(s[1..])
  }

  /** The value `whole.frac` denotes: whole + frac / 10^|frac|. */
  function DecimalValue(whole: string, frac: string): (v: real)
    requires AllDigits(whole) && AllDigits(frac)
    ensures v >= 0.0
    ensures frac == [] ==> v == DigitsValue(whole) as real
  {
    DigitsValue(whole) as real + DigitsValue(frac) as real / Pow10(|frac|) as real
  }

  /**
   * StrUnsignedDecimalLiteral without exponent: `D+`, `D+ . D*` or `. D+`.
   * None when `s` is not of that form.
   */
  function UnsignedDecimal(s: string): (r: Option<real>)
    ensures r.Some? ==> s != [] && r.value >= 0.0
    ensures s != [] && AllDigits(s) ==> r == Some(DigitsValue(s) as real)
    ensures (exists i :: 0 <= i < |s| && s[i] == '-') ==> r.None?
  {
    if '.' !in s then
      if s != [] && AllDigits(s) then Some(DigitsValue(s) as real) else None
    else
      var i := IndexOfDot(s);
      var whole, frac := s[..i], s[i + 1..];
      if AllDigits(whole) && AllDigits(frac) && (whole != [] || frac != []) then
        Some(DecimalValue(whole, frac))
      else None
  }

  /**
   * ECMAScript `Number(s)` for a string over `[0-9.-]`: the empty string is 0,
   * an optional leading `-` is a sign, anything else that is not a decimal
   * literal is NaN. The exact rational value stands for the nearest double.
   */
  function StringToNumber(s: string): (n: JsNumber)
    requires forall i :: 0 <= i < |s| ==> IsNumericChar(s[i])
    ensures s == [] ==> n == Finite(0.0)
    ensures n.NaN? <==> s != [] && UnsignedDecimal(if s[0] == '-' then s[1..] else s).None?
    ensures n.Finite? && s != [] && s[0] == '-' ==> n.value == -UnsignedDecimal(s[1..]).value
    ensures n.Finite? && s != [] && s[0] != '-' ==> n.value == UnsignedDecimal(s).value
  {
    if s == [] then Finite(0.0)
    else if s[0] == '-' then
      match UnsignedDecimal(s[1..])
      case Some(u) => Finite(-u)
      case None => NaN
    else
      match UnsignedDecimal(s)
      case Some(u) => Finite(u)
      case None => NaN
  }

  /** `parseMaybeCurrency`: strings become numbers after stripping; other values pass through. */
  function ParseMaybeCurrency(v: JsValue): (r: JsValue)
    ensures !v.Str? ==> r == v
    ensures v.Str? ==> r.Num?
  {
    match v
    case Str(s) => Num(StringToNumber(StripNonNumeric(s)))
    case _ => v
  }

  // ---------------------------------------------------------------------------
  // Properties
  // ---------------------------------------------------------------------------

  /** The stripped text holds only `0-9 . -`, keeps their order, and is a fixed point. */
  lemma StripNonNumericProperties(s: string, t: string)
    ensures forall i :: 0 <= i < |StripNonNumeric(s)| ==> IsNumericChar(StripNonNumeric(s)[i])
    ensures StripNonNumeric(s + t) == StripNonNumeric(s) + StripNonNumeric(t)
    ensures StripNonNumeric(StripNonNumeric(s)) == StripNonNumeric(s)
    ensures forall c :: multiset(StripNonNumeric(s))[c] == if IsNumericChar(c) then multiset(s)[c] else 0
  {
    KeepOnlyCounts(s, IsNumericChar);
    KeepOnlyAppend(s, t, IsNumericChar);
    KeepOnlyIdempotent(s, IsNumericChar);
  }

  /** Coercing an already-stripped string gives the same number. */
  lemma ParseMaybeCurrencyOfStripped(s: string)
    ensures ParseMaybeCurrency(Str(StripNonNumeric(s))) == ParseMaybeCurrency(Str(s))
  {
    KeepOnlyIdempotent(s, IsNumericChar);
  }

  /** The sanitised cell holds only `[A-Za-z0-9_]`, whitespace and `-`, keeps their order, and is a fixed point. */
  lemma SanitizeProperties(s: string, t: string)
    ensures forall i :: 0 <= i < |Sanitize(s)| ==> IsSanitizedChar(Sanitize(s)[i])
    ensures Sanitize(s + t) == Sanitize(s) + Sanitize(t)
    ensures Sanitize(Sanitize(s)) == Sanitize(s)
    ensures Sanitize(s) == s <==> forall i :: 0 <= i < |s| ==> IsSanitizedChar(s[i])
    ensures forall c :: multiset(Sanitize(s))[c] == if IsSanitizedChar(c) then multiset(s)[c] else 0
  {
    KeepOnlyCounts(s, IsSanitizedChar);
    KeepOnlyAppend(s, t, IsSanitizedChar);
    KeepOnlyIdempotent(s, IsSanitizedChar);
    KeepOnlyUnchanged(s, IsSanitizedChar);
  }

  /** The decimal rendering of a natural number, as `String(n)` gives it. */
  function NatToDigits(n: nat): (s: string)
    ensures s != [] && AllDigits(s)
  {
    if n < 10 then ['0' + n as char]
    else NatToDigits(n / 10) + ['0' + (n % 10) as char]
  }

  lemma {:induction false} DigitsValueOfNat(n: nat)
    ensures DigitsValue(NatToDigits(n)) == n
  {
    if n >= 10 {
      var s := NatToDigits(n);
      assert s[..|s| - 1] == NatToDigits(n / 10);
      DigitsValueOfNat(n / 10);
    }
  }

  /** A string with no kept character filters to nothing. */
  lemma {:induction false} KeepOnlyNone(s: string, keep: char -> bool)
    requires forall i :: 0 <= i < |s| ==> !keep(s[i])
    ensures KeepOnly(s, keep) == []
  {
    if s != [] {
      KeepOnlyNone(s[1..], keep);
    }
  }

  /** Text without `0-9 . -` around a kept string strips away completely. */
  lemma StripAround(before: string, d: string, after: string)
    requires forall i :: 0 <= i < |before| ==> !IsNumericChar(before[i])
    requires forall i :: 0 <= i < |after| ==> !IsNumericChar(after[i])
    requires forall i :: 0 <= i < |d| ==> IsNumericChar(d[i])
    ensures StripNonNumeric(before + d + after) == d
  {
    KeepOnlyAppend(before + d, after, IsNumericChar);
    KeepOnlyAppend(before, d, IsNumericChar);
    KeepOnlyNone(before, IsNumericChar);
    KeepOnlyNone(after, IsNumericChar);
    KeepOnlyUnchanged(d, IsNumericChar);
  }

  /** `Number` of the decimal rendering of `n` is `n`. */
  lemma NumberOfDigits(n: nat)
    ensures forall i :: 0 <= i < |NatToDigits(n)| ==> IsNumericChar(NatToDigits(n)[i])
    ensures StringToNumber(NatToDigits(n)) == Finite(n as real)
  {
    var d := NatToDigits(n);
    assert d[0] != '-';
    DigitsValueOfNat(n);
  }

  /**
   * Round trip: a price written as any text without `0-9 . -` (a currency sign,
   * spaces, letters) around the decimal digits of `n` coerces back to `n`.
   */
  lemma CurrencyRoundTrip(before: string, n: nat, after: string)
    requires forall i :: 0 <= i < |before| ==> !IsNumericChar(before[i])
    requires forall i :: 0 <= i < |after| ==> !IsNumericChar(after[i])
    ensures ParseMaybeCurrency(Str(before + NatToDigits(n) + after)) == Num(Finite(n as real))
  {
    NumberOfDigits(n);
    StripAround(before, NatToDigits(n), after);
  }

  /** The first `.` after a run of digits is the one that ends the run. */
  lemma {:induction false} IndexOfDotAfterDigits(whole: string, frac: string)
    requires AllDigits(whole)
    ensures '.' in whole + "." + frac
    ensures IndexOfDot(whole + "." + frac) == |whole|
  {
    var s := whole + "." + frac;
    assert s[|whole|] == '.';
    if whole != [] {
      assert s[0] == whole[0];
      assert s[1..] == whole[1..] + "." + frac;
      IndexOfDotAfterDigits(whole[1..], frac);
    }
  }

  /** `D* . D*` with at least one digit denotes whole + frac / 10^|frac|. */
  lemma DecimalLiteralValue(whole: string, frac: string)
    requires AllDigits(whole) && AllDigits(frac) && (whole != [] || frac != [])
    ensures UnsignedDecimal(whole + "." + frac) == Some(DecimalValue(whole, frac))
  {
    var s := whole + "." + frac;
    IndexOfDotAfterDigits(whole, frac);
    var i := IndexOfDot(s);
    assert s[..i] == whole;
    assert s[i + 1..] == frac;
  }

  /** The value of a price written with digits, a decimal point and at least one fractional digit. */
  function PriceValue(negative: bool, whole: nat, frac: string): real
    requires AllDigits(frac)
  {
    var u := whole as real + DigitsValue(frac) as real / Pow10(|frac|) as real;
    if negative then -u else u
  }

  /** The text of such a price: an optional `-`, the digits of `whole`, `.` and `frac`. */
  function PriceText(negative: bool, whole: nat, frac: string): (t: string)
    requires AllDigits(frac)
    ensures forall i :: 0 <= i < |t| ==> IsNumericChar(t[i])
  {
    (if negative then "-" else "") + NatToDigits(whole) + "." + frac
  }

  /** `Number` reads a signed decimal price back to its value. */
  lemma NumberOfPrice(negative: bool, whole: nat, frac: string)
    requires AllDigits(frac)
    ensures StringToNumber(PriceText(negative, whole, frac)) == Finite(PriceValue(negative, whole, frac))
  {
    var d := NatToDigits(whole);
    var t := PriceText(negative, whole, frac);
    DecimalLiteralValue(d, frac);
    DigitsValueOfNat(whole);
    if negative {
      assert t[0] == '-';
      assert t[1..] == d + "." + frac;
    } else {
      assert t == d + "." + frac;
      assert t[0] == d[0];
    }
  }

  /**
   * Round trip for prices with cents and a sign: `"$-12.50 USD"` and the like,
   * any text without `0-9 . -` around the price, coerce to its value.
   */
  lemma PriceRoundTrip(before: string, negative: bool, whole: nat, frac: string, after: string)
    requires forall i :: 0 <= i < |before| ==> !IsNumericChar(before[i])
    requires forall i :: 0 <= i < |after| ==> !IsNumericChar(after[i])
    requires AllDigits(frac)
    ensures ParseMaybeCurrency(Str(before + PriceText(negative, whole, frac) + after)) ==
      Num(Finite(PriceValue(negative, whole, frac)))
  {
    StripAround(before, PriceText(negative, whole, frac), after);
    NumberOfPrice(negative, whole, frac);
  }

  lemma NumberOfDollarPrice()
    ensures StringToNumber("19.99") == Finite(19.99)
  {
    assert IndexOfDot("19.99") == 2 by {
      assert "19.99"[1..] == "9.99" && "9.99"[1..] == ".99";
    }
    assert "19.99"[..2] == "19" && "19.99"[3..] == "99";
    assert DigitsValue("19") == 19 by { assert "19"[..1] == "1"; }
    assert DigitsValue("99") == 99 by { assert "99"[..1] == "9"; }
  }

  /** The motivating example: `"$19.99"` strips to `"19.99"` and coerces to 19.99. */
  lemma DollarPriceExample()
    ensures StripNonNumeric("$19.99") == "19.99"
    ensures ParseMaybeCurrency(Str("$19.99")) == Num(Finite(19.99))
  {
    assert "$19.99" == "$" + "19.99" + "";
    StripAround("$", "19.99", "");
    NumberOfDollarPrice();
  }

  /** What coercion does NOT do: text with two decimal points is NaN, not 0. */
  lemma TwoDecimalPointsIsNaN()
    ensures ParseMaybeCurrency(Str("1.2.3")) == Num(NaN)
  {
    KeepOnlyUnchanged("1.2.3", IsNumericChar);
    assert IndexOfDot("1.2.3") == 1 by { assert "1.2.3"[1..] == ".2.3"; }
    assert "1.2.3"[2..] == "2.3";
    assert "2.3"[1] == '.';
  }

  /** Text with no digit at all strips to the empty string, which `Number` reads as 0. */
  lemma NoDigitsIsZero()
    ensures ParseMaybeCurrency(Str("n/a")) == Num(Finite(0.0))
  {
    KeepOnlyNone("n/a", IsNumericChar);
  }

  /** A lone sign is not a number. */
  lemma LoneSignIsNaN()
    ensures ParseMaybeCurrency(Str("-")) == Num(NaN)
  {
    KeepOnlyUnchanged("-", IsNumericChar);
    assert "-"[1..] == "";
  }
}
