/**
  The scalar values a spreadsheet feed delivers in a cell's `v`, and the two
  JavaScript coercions the catalogue applies to them: truthiness (`o.A && o.B`)
  and the numeric comparison `o.G > 0`.
 */
module JsValue {
  import JsString

  /** A cell value. `Absent` stands for both `undefined` (a null cell, read through
      `cell?.v`) and `null` (a cell whose `v` is null): every operation modelled here
      treats the two alike. Spreadsheet numbers are taken as exact reals. */
  datatype Value = Absent | Str(s: string) | Num(n: real) | Bool(b: bool)

  /** How evaluating an expression ends: with a value, or by throwing (a `TypeError`
      in every case modelled here). */
  datatype Completion<T> = Normal(value: T) | Throw

  /** ToBoolean: `undefined`, `null`, `""`, `0` and `false` are falsy; every other value is truthy. */
  predicate Truthy(v: Value)
  {
    match v
    case Absent => false
    case Str(s) => |s| > 0
    case Num(n) => n != 0.0
    case Bool(b) => b
  }

  /** Exactly five values are falsy: `undefined`, `null` (both `Absent`), `""`, `0` and `false`. */
  lemma FalsyValues(v: Value)
    ensures !Truthy(v) <==> v in {Absent, Str(""), Num(0.0), Bool(false)}
  {
  }

  /** The sign of the number a value converts to, `NaN` when it converts to no number. */
  datatype Sign = NaN | Negative | Zero | Positive

  function Negate(s: Sign): Sign {
    match s
    case Negative => Positive
    case Positive => Negative
    case _ => s
  }

  /** A digit of the given radix (2, 8, 10 or 16). */
  predicate IsDigit(c: char, radix: nat) {
    if radix == 16 then '0' <= c <= '9' || 'a' <= c <= 'f' || 'A' <= c <= 'F'
    else '0' as int <= c as int < '0' as int + radix
  }

  predicate AllDigits(s: string, radix: nat) {
    forall i :: 0 <= i < |s| ==> IsDigit(s[i], radix)
  }

  /** Some digit of `s` is not `0`, so the numeral it spells is not zero. */
  predicate AnyNonZero(s: string) {
    exists i :: 0 <= i < |s| && s[i] != '0'
  }

  /** The index of the first character of `s` that is `c1` or `c2`, or `|s|` if there is none. */
  function Find(s: string, c1: char, c2: char): (k: nat)
    ensures k <= |s|
    ensures k < |s| ==> s[k] == c1 || s[k] == c2
    ensures forall i :: 0 <= i < k ==> s[i] != c1 && s[i] != c2
  {
    if |s| == 0 || s[0] == c1 || s[0] == c2 then 0 else 1 + Find(s[1..], c1, c2)
  }

  /** The text after `e` in an ExponentPart: an optional sign and at least one decimal digit. */
  predicate IsExponent(e: string) {
    if |e| > 0 && (e[0] == '+' || e[0] == '-') then |e| > 1 && AllDigits(e[1..], 10)
    else |e| > 0 && AllDigits(e, 10)
  }

  /** The sign of a StrUnsignedDecimalLiteral (`Infinity`, `12`, `1.`, `.5`, `2.5e-3`, ...),
      `NaN` when `t` is not one. An exponent never changes the sign of an exact real. */
  function UnsignedDecimalSign(t: string): (r: Sign)
    ensures r != Negative
  {
    if t == "Infinity" then Positive
    else
      var e := Find(t, 'e', 'E');
      if e < |t| && !IsExponent(t[e + 1..]) then NaN
      else
        var mantissa := t[..e];
        var d := Find(mantissa, '.', '.');
        var whole := mantissa[..d];
        var fraction := if d < |mantissa| then mantissa[d + 1..] else "";
        if |whole| + |fraction| == 0 || !AllDigits(whole, 10) || !AllDigits(fraction, 10) then NaN
        else if AnyNonZero(whole + fraction) then Positive
        else Zero
  }

  /** The radix a NonDecimalIntegerLiteral prefix (`0x`, `0o`, `0b`) selects, 0 for none. */
  function PrefixRadix(t: string): (radix: nat)
    ensures radix in {0, 2, 8, 16}
  {
    if |t| < 2 || t[0] != '0' then 0
    else if t[1] == 'x' || t[1] == 'X' then 16
    else if t[1] == 'o' || t[1] == 'O' then 8
    else if t[1] == 'b' || t[1] == 'B' then 2
    else 0
  }

  /** The sign of StringToNumber(s) (section 7.1.4.1.1 of ECMA-262): surrounding white
      space is ignored, the empty string is 0, a prefixed integer takes no sign, and a
      decimal literal may carry one. */
  function StringSign(s: string): Sign {
    var t := JsString.Trim(s);
    var radix := PrefixRadix(t);
    if |t| == 0 then Zero
    else if radix != 0 then
      if |t| > 2 && AllDigits(t[2..], radix) then
        if AnyNonZero(t[2..]) then Positive else Zero
      else NaN
    else if t[0] == '-' then Negate(UnsignedDecimalSign(t[1..]))
    else if t[0] == '+' then UnsignedDecimalSign(t[1..])
    else UnsignedDecimalSign(t)
  }

  /** The sign of ToNumber(v). */
  function ToNumberSign(v: Value): Sign {
    match v
    case Absent => NaN
    case Str(s) => StringSign(s)
    case Num(n) => if n > 0.0 then Positive else if n < 0.0 then Negative else Zero
    case Bool(b) => if b then Positive else Zero
  }

  /** Some character of `t` at index `from` or later is a digit of `radix` other than `0`. */
  ghost predicate NonZeroDigitFrom(t: string, from: nat, radix: nat) {
    exists i :: from <= i < |t| && IsDigit(t[i], radix) && t[i] != '0'
  }

  /** The shape of a numeral that converts to a positive number: `Infinity` with at most
      a plus sign, a prefixed integer with a non-zero digit after its prefix, or an
      unprefixed numeral with a non-zero decimal digit. */
  ghost predicate PositiveNumeralShape(t: string) {
    || t == "Infinity" || t == "+Infinity"
    || (PrefixRadix(t) == 0 && |t| > 0 && t[0] != '-' && NonZeroDigitFrom(t, 0, 10))
    || (PrefixRadix(t) != 0 && NonZeroDigitFrom(t, 2, PrefixRadix(t)))
  }

  /** `v > 0`: a comparison with NaN is false, so only a value converting to a positive
      number passes; a string passes only when its trimmed text is a positive numeral. */
  predicate GreaterThanZero(v: Value)
    ensures v.Absent? ==> !GreaterThanZero(v)
    ensures v.Num? ==> (GreaterThanZero(v) <==> v.n > 0.0)
    ensures v.Bool? ==> (GreaterThanZero(v) <==> v.b)
    ensures v.Str? && GreaterThanZero(v) ==> PositiveNumeralShape(JsString.Trim(v.s))
  {
    if v.Str? then StringPositiveShape(v.s); ToNumberSign(v) == Positive
    else ToNumberSign(v) == Positive
  }

  /** A positive StrUnsignedDecimalLiteral is `Infinity` or holds a non-zero decimal digit. */
  lemma UnsignedPositiveShape(u: string)
    requires UnsignedDecimalSign(u) == Positive
    ensures u == "Infinity" || NonZeroDigitFrom(u, 0, 10)
  {
    if u != "Infinity" {
      var e := Find(u, 'e', 'E');
      var mantissa := u[..e];
      var d := Find(mantissa, '.', '.');
      var whole := mantissa[..d];
      var fraction := if d < |mantissa| then mantissa[d + 1..] else "";
      var digits := whole + fraction;
      var i :| 0 <= i < |digits| && digits[i] != '0';
      if i < |whole| {
        assert digits[i] == whole[i] == u[i];
        assert IsDigit(u[i], 10);
      } else {
        var j := d + 1 + (i - |whole|);
        assert digits[i] == fraction[i - |whole|] == u[j];
        assert IsDigit(u[j], 10);
      }
    }
  }

  /** A string converting to a positive number has a positive numeral as its trimmed text. */
  lemma StringPositiveShape(s: string)
    ensures StringSign(s) == Positive ==> PositiveNumeralShape(JsString.Trim(s))
  {
    var t := JsString.Trim(s);
    var radix := PrefixRadix(t);
    if StringSign(s) == Positive && |t| > 0 {
      if radix != 0 {
        var tail := t[2..];
        var i :| 0 <= i < |tail| && tail[i] != '0';
        assert IsDigit(tail[i], radix) && tail[i] == t[i + 2];
      } else if t[0] == '+' {
        UnsignedPositiveShape(t[1..]);
        if t[1..] == "Infinity" {
          assert t == "+" + t[1..];
        } else {
          var i :| 0 <= i < |t[1..]| && IsDigit(t[1..][i], 10) && t[1..][i] != '0';
          assert t[i + 1] == t[1..][i];
        }
      } else if t[0] != '-' {
        UnsignedPositiveShape(t);
      }
    }
  }

  /** An unsigned run of decimal digits is a decimal literal, zero unless some digit is not 0. */
  lemma DigitsSign(s: string)
    requires |s| > 0 && AllDigits(s, 10)
    ensures UnsignedDecimalSign(s) == if AnyNonZero(s) then Positive else Zero
  {
    assert IsDigit(s[0], 10) && s[0] != 'I';
    assert s != "Infinity" by { assert "Infinity"[0] == 'I'; }
    assert forall i :: 0 <= i < |s| ==> IsDigit(s[i], 10) && s[i] != 'e' && s[i] != 'E' && s[i] != '.';
    assert Find(s, 'e', 'E') == |s|;
    assert s[..|s|] == s;
    assert Find(s, '.', '.') == |s|;
    assert s + "" == s;
  }

  /** A string of decimal digits is greater than zero exactly when one of its digits is not 0. */
  lemma DigitStringGreaterThanZero(s: string)
    requires |s| > 0 && AllDigits(s, 10)
    ensures GreaterThanZero(Str(s)) <==> AnyNonZero(s)
  {
    assert !JsString.IsTrimmable(s[0]) && !JsString.IsTrimmable(s[|s| - 1]);
    assert JsString.TrimStart(s) == s;
    assert PrefixRadix(s) == 0;
    DigitsSign(s);
  }

  /** A minus sign followed by decimal digits is never greater than zero (`"-0"` is zero). */
  lemma NegatedDigitStringNotGreaterThanZero(s: string)
    requires |s| > 0 && AllDigits(s, 10)
    ensures !GreaterThanZero(Str("-" + s))
  {
    var t := "-" + s;
    assert !JsString.IsTrimmable(t[0]) && !JsString.IsTrimmable(t[|t| - 1]);
    assert JsString.TrimStart(t) == t;
    assert t[1..] == s;
    DigitsSign(s);
  }

  /** Blank text, the empty string included, trims to the empty string, which converts to 0. */
  lemma BlankNotGreaterThanZero(s: string)
    requires forall i :: 0 <= i < |s| ==> JsString.IsTrimmable(s[i])
    ensures !GreaterThanZero(Str(s))
  {
    assert JsString.Trim(s) == "";
  }

  /** Text whose trimmed form holds no decimal digit and is not `Infinity` converts to NaN,
      so it never passes `> 0`. */
  lemma DigitlessNotGreaterThanZero(s: string)
    requires forall i :: 0 <= i < |JsString.Trim(s)| ==> !IsDigit(JsString.Trim(s)[i], 10)
    requires JsString.Trim(s) != "Infinity" && JsString.Trim(s) != "+Infinity"
    ensures !GreaterThanZero(Str(s))
  {
    var t := JsString.Trim(s);
    if |t| >= 2 {
      assert IsDigit(t[0], 10) || t[0] != '0';
    }
  }

  /** In `whole.fraction` the first exponent mark is absent and the first point follows `whole`. */
  lemma DecimalFind(whole: string, fraction: string)
    requires AllDigits(whole, 10) && AllDigits(fraction, 10)
    ensures Find(whole + "." + fraction, 'e', 'E') == |whole + "." + fraction|
    ensures Find(whole + "." + fraction, '.', '.') == |whole|
  {
    var s := whole + "." + fraction;
    forall i | 0 <= i < |s|
      ensures s[i] != 'e' && s[i] != 'E'
    {
      if i < |whole| {
        assert s[i] == whole[i];
      } else if i > |whole| {
        assert s[i] == fraction[i - |whole| - 1];
      }
    }
    assert forall i :: 0 <= i < |whole| ==> s[i] == whole[i] != '.';
    assert s[|whole|] == '.';
  }

  /** As an unsigned literal, `whole.fraction` is zero unless one of its digits is not 0. */
  lemma DecimalUnsignedSign(whole: string, fraction: string)
    requires AllDigits(whole, 10) && AllDigits(fraction, 10) && |whole| + |fraction| > 0
    ensures UnsignedDecimalSign(whole + "." + fraction) == if AnyNonZero(whole + fraction) then Positive else Zero
  {
    var s := whole + "." + fraction;
    DecimalFind(whole, fraction);
    assert s[0] != 'I' by {
      if |whole| > 0 { assert s[0] == whole[0]; }
    }
    assert s != "Infinity" by { assert "Infinity"[0] == 'I'; }
    assert s[..|s|] == s;
    assert s[..|whole|] == whole;
    assert s[|whole| + 1..] == fraction;
  }

  /** A decimal literal `whole.fraction` passes `> 0` exactly when one of its digits is not 0. */
  lemma DecimalGreaterThanZero(whole: string, fraction: string)
    requires AllDigits(whole, 10) && AllDigits(fraction, 10) && |whole| + |fraction| > 0
    ensures GreaterThanZero(Str(whole + "." + fraction)) <==> AnyNonZero(whole + fraction)
  {
    var s := whole + "." + fraction;
    assert s[|whole|] == '.';
    assert !JsString.IsTrimmable(s[0]) && !JsString.IsTrimmable(s[|s| - 1]) by {
      if |whole| > 0 { assert s[0] == whole[0]; }
      if |fraction| > 0 { assert s[|s| - 1] == fraction[|fraction| - 1]; }
    }
    assert JsString.TrimStart(s) == s;
    assert JsString.Trim(s) == s;
    assert s[0] != '-' && s[0] != '+' && PrefixRadix(s) == 0 by {
      if |whole| > 0 { assert s[0] == whole[0]; }
      if |whole| > 1 { assert s[1] == whole[1]; }
    }
    DecimalUnsignedSign(whole, fraction);
  }
}
