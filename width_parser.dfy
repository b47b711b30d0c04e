/**
 * Interpretation of declared widths: `isStatic`, `parseWidth`, `parseFractionalUnit`,
 * `getMinWidth` and `getMaxWidth`.
 */
module WidthParser {
  import opened Types

  predicate IsDigit(ch: char)
  {
    '0' <= ch <= '9'
  }

  predicate AllDigits(s: string)
  {
    forall i :: 0 <= i < |s| ==> IsDigit(s[i])
  }

  /** The strings matched by the regular expression `^\d+%$`. */
  predicate IsPercentage(s: string)
  {
    |s| >= 2 && s[|s| - 1] == '%' && AllDigits(s[..|s| - 1])
  }

  /** `parseInt(s, 10)` of a string made of decimal digits only. */
  function DigitsValue(s: string): nat
    requires AllDigits(s)
  {
    if s == [] then 0
    else 10 * DigitsValue(s[..|s| - 1]) + ((s[|s| - 1] as int) - ('0' as int))
  }

  /** The decimal notation of `n`, the inverse of DigitsValue. */
  function DecimalString(n: nat): (s: string)
    ensures |s| > 0 && AllDigits(s)
  {
    var last := (('0' as int) + n % 10) as char;
    if n < 10 then [last] else DecimalString(n / 10) + [last]
  }

  lemma {:induction false} DecimalStringRoundTrip(n: nat)
    ensures DigitsValue(DecimalString(n)) == n
  {
    var s := DecimalString(n);
    if n >= 10 {
      DecimalStringRoundTrip(n / 10);
      assert s[..|s| - 1] == DecimalString(n / 10);
    }
  }

  /** `isStatic`: a number, or a string matching `^\d+%$`. */
  predicate IsStatic(width: WidthSpec)
  {
    width.Pixels? || IsPercentage(width.text)
  }

  /**
   * `parseWidth`: a number is returned unchanged, a percentage is taken of the
   * fixed table width, and any other string throws.
   */
  function ParseWidth(width: WidthSpec): (r: Result<real>)
    ensures r.Ok? <==> IsStatic(width)
    ensures width.Pixels? ==> r == Ok(width.px)
    ensures width.Text? && r.Ok? ==> 0.0 <= r.value
    ensures r.Err? ==> r.error == UnsupportedWidth
  {
    match width
    case Pixels(px) => Ok(px)
    case Text(s) =>
      if IsPercentage(s) then
        Ok(TableWidth * ((DigitsValue(s[..|s| - 1]) as real) / 100.0))
      else
        Err(UnsupportedWidth)
  }

  /** `"<d>%"` is `800 * d / 100` pixels. */
  lemma ParsePercentage(digits: string)
    requires |digits| > 0 && AllDigits(digits)
    ensures IsStatic(Text(digits + "%"))
    ensures ParseWidth(Text(digits + "%")) == Ok(TableWidth * (DigitsValue(digits) as real) / 100.0)
  {
    var s := digits + "%";
    assert s[..|s| - 1] == digits;
  }

  /** Writing a percentage and parsing it back yields `8 * p` pixels. */
  lemma PercentageRoundTrip(p: nat)
    ensures ParseWidth(Text(DecimalString(p) + "%")) == Ok(8.0 * (p as real))
  {
    ParsePercentage(DecimalString(p));
    DecimalStringRoundTrip(p);
  }

  lemma ParseWidthExamples()
    ensures ParseWidth(Text("50%")) == Ok(400.0)
    ensures ParseWidth(Text("abc")) == Err(UnsupportedWidth)
    ensures ParseWidth(Text("%")) == Err(UnsupportedWidth)
    ensures ParseWidth(Pixels(120.5)) == Ok(120.5)
  {
    ParsePercentage("50");
    assert DigitsValue("50") == 50 by {
      assert "50"[..1] == "5";
    }
    assert "50" + "%" == "50%";
    assert "abc"[..2][0] == 'a';
  }

  /** The longest prefix of `s` made of decimal digits (what `\d+` consumes). */
  function LeadingDigits(s: string): (r: string)
    ensures |r| <= |s| && r == s[..|r|] && AllDigits(r)
    ensures |r| < |s| ==> !IsDigit(s[|r|])
  {
    if s == [] || !IsDigit(s[0]) then []
    else [s[0]] + LeadingDigits(s[1..])
  }

  lemma {:induction false} LeadingDigitsOfDigits(digits: string, rest: string)
    requires AllDigits(digits)
    requires rest == [] || !IsDigit(rest[0])
    ensures LeadingDigits(digits + rest) == digits
  {
    if digits != [] {
      assert (digits + rest)[1..] == digits[1..] + rest;
      LeadingDigitsOfDigits(digits[1..], rest);
    } else {
      assert digits + rest == rest;
    }
  }

  /** The strings on which `/(?<=^flex-)(\d+)/g` finds a match. */
  predicate IsFlexUnit(s: string)
  {
    |s| > 5 && s[..5] == "flex-" && IsDigit(s[5])
  }

  /** JavaScript's falsy values among the widths: absent, the number 0, the empty string. */
  predicate IsFalsy(width: Option<WidthSpec>)
  {
    width.None? || width == Some(Pixels(0.0)) || width == Some(Text(""))
  }

  /**
   * `parseFractionalUnit`: the flexible weight of a column. A falsy spec weighs 1;
   * `flex-N...` weighs N; anything else makes the runtime throw.
   */
  function ParseFractionalUnit(width: Option<WidthSpec>): (r: Result<nat>)
    ensures r.Ok? <==> IsFalsy(width) || (width.Some? && width.value.Text? && IsFlexUnit(width.value.text))
    ensures IsFalsy(width) ==> r == Ok(1)
    ensures r.Err? ==> r.error == TypeError
  {
    match width
    case None => Ok(1)
    case Some(Pixels(px)) => if px == 0.0 then Ok(1) else Err(TypeError)
    case Some(Text(s)) =>
      if s == "" then Ok(1)
      else if IsFlexUnit(s) then Ok(DigitsValue(LeadingDigits(s[5..])))
      else Err(TypeError)
  }

  /** `flex-N` followed by anything that does not continue the number weighs N. */
  lemma FlexUnitRoundTrip(n: nat, rest: string)
    requires rest == [] || !IsDigit(rest[0])
    ensures ParseFractionalUnit(Some(Text("flex-" + DecimalString(n) + rest))) == Ok(n)
  {
    var digits := DecimalString(n);
    var tail := digits + rest;
    var s := "flex-" + tail;
    assert "flex-" + digits + rest == s;
    assert s[..5] == "flex-" && s[5..] == tail;
    assert s[5] == tail[0] == digits[0];
    assert IsFlexUnit(s);
    LeadingDigitsOfDigits(digits, rest);
    DecimalStringRoundTrip(n);
  }

  lemma ParseFractionalUnitExamples()
    ensures ParseFractionalUnit(None) == Ok(1)
    ensures ParseFractionalUnit(Some(Text(""))) == Ok(1)
    ensures ParseFractionalUnit(Some(Text("flex-3"))) == Ok(3)
    ensures ParseFractionalUnit(Some(Text("flex-"))) == Err(TypeError)
    ensures ParseFractionalUnit(Some(Text("50%"))) == Err(TypeError)
    ensures ParseFractionalUnit(Some(Pixels(100.0))) == Err(TypeError)
  {
    FlexUnitRoundTrip(3, "");
    assert DecimalString(3) == "3";
    assert "flex-" + "3" + "" == "flex-3";
  }

  /** `getMinWidth`: an absent minimum is 75 pixels, a present one is parsed. */
  function MinWidth(minWidth: Option<WidthSpec>): (r: Result<real>)
    ensures r.Ok? <==> minWidth.None? || IsStatic(minWidth.value)
    ensures minWidth.None? ==> r == Ok(DefaultMinWidth)
    ensures minWidth.Some? && minWidth.value.Pixels? ==> r == Ok(minWidth.value.px)
  {
    match minWidth
    case None => Ok(DefaultMinWidth)
    case Some(w) => ParseWidth(w)
  }

  /** `getMaxWidth`: an absent maximum is unbounded (`None`), a present one is parsed. */
  function MaxWidth(maxWidth: Option<WidthSpec>): (r: Result<Option<real>>)
    ensures r.Ok? <==> maxWidth.None? || IsStatic(maxWidth.value)
    ensures r.Ok? ==> (r.value.None? <==> maxWidth.None?)
    ensures maxWidth.Some? && maxWidth.value.Pixels? ==> r == Ok(Some(maxWidth.value.px))
  {
    match maxWidth
    case None => Ok(None)
    case Some(w) =>
      var px :- ParseWidth(w);
      Ok(Some(px))
  }
}
