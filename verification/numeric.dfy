/**
 * Numbers as the validator sees them: the textual forms JavaScript's number
 * conversion accepts, the safe-integer range, and `Math.round` to a number of
 * decimal places. Numbers are exact reals; binary floating point is not modelled.
 */
module Numeric {
  import opened Wrappers
  import Text

  /** `Number.MAX_SAFE_INTEGER`, 2^53 - 1. */
  const MaxSafeInteger: int := 9007199254740991

  predicate IsIntegral(x: real) {
    x.Floor as real == x
  }

  function Pow10(k: nat): (r: nat)
    ensures r >= 1
  {
    if k == 0 then 1 else 10 * Pow10(k - 1)
  }

  /** 10^e for a possibly negative exponent. */
  function Scale(e: int): (r: real)
    ensures r > 0.0
  {
    if e >= 0 then Pow10(e) as real else 1.0 / Pow10(-e) as real
  }

  predicate AllDigits(s: string) {
    forall i :: 0 <= i < |s| ==> Text.IsAsciiDigit(s[i])
  }

  function DigitValue(c: char): nat
    requires Text.IsAsciiDigit(c)
  {
    c as int - '0' as int
  }

  /** Value of a run of decimal digits, most significant first. */
  function DigitsValue(ds: string): nat
    requires AllDigits(ds)
  {
    if |ds| == 0 then 0 else DigitsValue(ds[..|ds| - 1]) * 10 + DigitValue(ds[|ds| - 1])
  }

  /** End of the run of decimal digits that starts at `i`. */
  function DigitRun(t: string, i: nat): (j: nat)
    requires i <= |t|
    ensures i <= j <= |t|
    ensures AllDigits(t[i..j])
    ensures j < |t| ==> !Text.IsAsciiDigit(t[j])
    decreases |t| - i
  {
    if i < |t| && Text.IsAsciiDigit(t[i]) then
      var j := DigitRun(t, i + 1);
      assert t[i..j] == [t[i]] + t[i + 1..j];
      j
    else i
  }

  lemma {:induction false} DigitRunOverDigits(t: string, i: nat)
    requires i <= |t| && AllDigits(t)
    ensures DigitRun(t, i) == |t|
    decreases |t| - i
  {
    if i < |t| {
      DigitRunOverDigits(t, i + 1);
    }
  }

  /**
   * The exponent part `(e[+-]?\d+)?` starting at `i`: its value and where it
   * ends, or None when an `e` is not followed by digits.
   */
  function Exponent(t: string, i: nat): Option<(int, nat)>
    requires i <= |t|
  {
    if i < |t| && (t[i] == 'e' || t[i] == 'E') then
      var negative := i + 1 < |t| && t[i + 1] == '-';
      var start := if i + 1 < |t| && (t[i + 1] == '+' || t[i + 1] == '-') then i + 2 else i + 1;
      var stop := DigitRun(t, start);
      if stop == start then None
      else
        var magnitude: int := DigitsValue(t[start..stop]);
        Some((if negative then -magnitude else magnitude, stop))
    else Some((0, i))
  }

  /**
   * The unsigned mantissa `(\d+(\.\d*)?|\.\d+)` starting at `i`: its value and
   * where it ends, or None when it has no digit at all.
   */
  function Mantissa(t: string, i: nat): (r: Option<(real, nat)>)
    requires i <= |t|
    ensures r.Some? ==> i < r.value.1 <= |t|
  {
    var i1 := DigitRun(t, i);
    var hasDot := i1 < |t| && t[i1] == '.';
    var i2 := if hasDot then DigitRun(t, i1 + 1) else i1;
    var fraction := if hasDot then t[i1 + 1..i2] else "";
    if i1 == i && |fraction| == 0 then None
    else
      Some((DigitsValue(t[i..i1]) as real + FractionValue(fraction), i2))
  }

  /** Value of the digits after a decimal point. */
  function FractionValue(ds: string): (r: real)
    requires AllDigits(ds)
    ensures 0.0 <= r
    ensures |ds| == 0 ==> r == 0.0
  {
    DigitsValue(ds) as real / Pow10(|ds|) as real
  }

  /**
   * The number a string converts to when it matches
   * `^\s*[+-]?(\d+(\.\d*)?|\.\d+)(e[+-]?\d+)?\s*$` (case-insensitive);
   * None for every other string, which then stays a string.
   */
  function ParseNumeric(s: string): Option<real> {
    ParseTrimmed(Text.Trim(s))
  }

  function ParseTrimmed(t: string): Option<real> {
    var negative := |t| > 0 && t[0] == '-';
    var i0 := if |t| > 0 && (t[0] == '+' || t[0] == '-') then 1 else 0;
    match Mantissa(t, i0)
    case None => None
    case Some((m, i2)) =>
      match Exponent(t, i2)
      case None => None
      case Some((e, i3)) =>
        if i3 != |t| then None
        else
          var magnitude := m * Scale(e);
          Some(if negative then -magnitude else magnitude)
  }

  lemma {:induction false} DigitsOfNatText(n: nat)
    ensures AllDigits(Text.NatText(n))
    ensures DigitsValue(Text.NatText(n)) == n
  {
    var s := Text.NatText(n);
    if n >= 10 {
      DigitsOfNatText(n / 10);
      assert s[..|s| - 1] == Text.NatText(n / 10);
    }
  }

  /** The decimal text of a natural number converts back to that number. */
  lemma ParseNatText(n: nat)
    ensures ParseNumeric(Text.NatText(n)) == Some(n as real)
  {
    var t := Text.NatText(n);
    DigitsOfNatText(n);
    assert Text.Trim(t) == t by {
      assert !Text.IsJsSpace(t[0]) && !Text.IsJsSpace(t[|t| - 1]);
    }
    ParseDigits(t);
  }

  /** A plain run of decimal digits converts to its decimal value. */
  lemma ParseDigits(t: string)
    requires |t| >= 1 && AllDigits(t)
    ensures ParseTrimmed(t) == Some(DigitsValue(t) as real)
  {
    var v := DigitsValue(t) as real;
    assert !(t[0] == '+' || t[0] == '-');
    MantissaOfDigits(t);
    ExponentAtEnd(t);
    ScaleZero();
    assert v * Scale(0) == v;
  }

  lemma ExponentAtEnd(t: string)
    ensures Exponent(t, |t|) == Some((0, |t|))
  {
  }

  lemma ScaleZero()
    ensures Scale(0) == 1.0
  {
  }

  lemma MantissaOfDigits(t: string)
    requires |t| >= 1 && AllDigits(t)
    ensures Mantissa(t, 0) == Some((DigitsValue(t) as real, |t|))
  {
    DigitRunOverDigits(t, 0);
    MantissaToEnd(t, 0);
    assert t[0..|t|] == t;
  }

  /** A mantissa whose digit run reaches the end of the text has no fraction. */
  lemma MantissaToEnd(t: string, i: nat)
    requires i < |t| && DigitRun(t, i) == |t|
    ensures AllDigits(t[i..|t|])
    ensures Mantissa(t, i) == Some((DigitsValue(t[i..|t|]) as real, |t|))
  {
    var v := DigitsValue(t[i..|t|]) as real;
    assert v + FractionValue("") == v;
  }

  /** `Math.round(x * scale) / scale`; `Math.round` rounds halves up. */
  function RoundWith(x: real, scale: real): real
    requires scale > 0.0
  {
    (x * scale + 0.5).Floor as real / scale
  }

  /** Rounding to `places` decimal places, as Joi's `number.precision` does it. */
  function RoundTo(x: real, places: nat): real {
    RoundWith(x, PlaceScale(places))
  }

  /** 10^places as a real. */
  function PlaceScale(places: nat): (r: real)
    ensures r >= 1.0
  {
    Pow10(places) as real
  }

  /** `x` has at most `places` decimal places. */
  predicate HasPlaces(x: real, places: nat) {
    IsIntegral(x * PlaceScale(places))
  }

  lemma RoundWithScaled(x: real, scale: real, k: int)
    requires scale > 0.0
    requires k == (x * scale + 0.5).Floor
    ensures RoundWith(x, scale) * scale == k as real
  {
  }

  lemma RoundToScaled(x: real, places: nat, scale: real, k: int)
    requires scale == PlaceScale(places)
    requires k == (x * scale + 0.5).Floor
    ensures RoundTo(x, places) * scale == k as real
  {
    assert RoundTo(x, places) == RoundWith(x, scale);
    RoundWithScaled(x, scale, k);
  }

  lemma FloorOfIntegralPlusHalf(r: real)
    requires IsIntegral(r)
    ensures (r + 0.5).Floor == r.Floor
  {
  }

  lemma MulCancel(a: real, b: real, s: real)
    requires s > 0.0 && a * s == b * s
    ensures a == b
  {
  }

  lemma MulMonotone(a: real, b: real, s: real)
    requires s > 0.0 && a <= b
    ensures a * s <= b * s
  {
  }

  lemma MulReflects(a: real, b: real, s: real)
    requires s > 0.0 && a * s <= b * s
    ensures a <= b
  {
  }

  /** The floor of `y + 0.5` stays within integer bounds that contain `y`. */
  lemma FloorBounds(z: real, k: int, lo: int, hi: int)
    requires k == z.Floor
    requires lo as real <= z - 0.5 <= hi as real
    ensures lo <= k <= hi
  {
  }

  lemma IntMul(a: int, b: int)
    ensures a as real * b as real == (a * b) as real
  {
  }

  /** Rounding yields a number with at most `places` decimal places. */
  lemma RoundToHasPlaces(x: real, places: nat)
    ensures HasPlaces(RoundTo(x, places), places)
  {
    var scale := PlaceScale(places);
    var k := (x * scale + 0.5).Floor;
    RoundToScaled(x, places, scale, k);
    IntegralOfInt(k);
    var r := RoundTo(x, places);
    assert r * scale == k as real;
    assert IsIntegral(r * scale);
    assert r * PlaceScale(places) == k as real;
    assert IsIntegral(r * PlaceScale(places));
    assert HasPlaces(r, places);
  }

  lemma IntegralOfInt(k: int)
    ensures IsIntegral(k as real)
  {
  }

  /** A whole number has any number of decimal places. */
  lemma IntegerHasPlaces(n: int, places: nat)
    ensures HasPlaces(n as real, places)
  {
    var p := Pow10(places);
    IntMul(n, p);
    IntegralOfInt(n * p);
    assert n as real * PlaceScale(places) == (n * p) as real;
  }

  /** Rounding leaves a number that already has that many places unchanged. */
  lemma RoundToFixes(x: real, places: nat)
    requires HasPlaces(x, places)
    ensures RoundTo(x, places) == x
  {
    var scale := PlaceScale(places);
    var k := (x * scale + 0.5).Floor;
    assert IsIntegral(x * scale);
    FloorOfIntegralPlusHalf(x * scale);
    RoundToScaled(x, places, scale, k);
    MulCancel(RoundTo(x, places), x, scale);
  }

  /** Scaling an interval with integer ends keeps the rounded scaled value inside it. */
  lemma ScaledBounds(x: real, p: nat, k: int, lo: int, hi: int)
    requires p >= 1
    requires k == (x * p as real + 0.5).Floor
    requires lo as real <= x <= hi as real
    ensures lo * p <= k <= hi * p
  {
    var s := p as real;
    MulMonotone(x, hi as real, s);
    MulMonotone(lo as real, x, s);
    IntMul(hi, p);
    IntMul(lo, p);
    FloorBounds(x * s + 0.5, k, lo * p, hi * p);
  }

  /** Dividing a scaled bound back down. */
  lemma UnscaledBounds(r: real, p: nat, k: int, lo: int, hi: int)
    requires p >= 1
    requires r * p as real == k as real
    requires lo * p <= k <= hi * p
    ensures lo as real <= r <= hi as real
  {
    var s := p as real;
    IntMul(hi, p);
    IntMul(lo, p);
    MulReflects(r, hi as real, s);
    MulReflects(lo as real, r, s);
  }

  /** Rounding never leaves an integer interval that contains the number. */
  lemma RoundToWithin(x: real, places: nat, lo: int, hi: int)
    requires lo as real <= x <= hi as real
    ensures lo as real <= RoundTo(x, places) <= hi as real
  {
    var p := Pow10(places);
    var scale := PlaceScale(places);
    var k := (x * scale + 0.5).Floor;
    RoundToScaled(x, places, scale, k);
    ScaledBounds(x, p, k, lo, hi);
    UnscaledBounds(RoundTo(x, places), p, k, lo, hi);
  }
}
