/** Decimal numbers as text: `str(d)` for a decimal and `Decimal(text)` for
    plain decimal text, restricted to sign, digits and one decimal point. */
module DecimalText {
  import opened Results
  import opened Decimals

  predicate IsDigit(c: char)
  {
    '0' <= c <= '9'
  }

  predicate AllDigits(s: string)
  {
    forall i :: 0 <= i < |s| ==> IsDigit(s[i])
  }

  /** The number a run of digits denotes, most significant digit first. */
  function DigitsValue(s: string): nat
    requires AllDigits(s)
  {
    if s == [] then 0 else 10 * DigitsValue(s[..|s| - 1]) + (s[|s| - 1] as int - '0' as int)
  }

  function DigitChar(d: nat): (c: char)
    requires d < 10
    ensures IsDigit(c)
  {
    ('0' as int + d) as char
  }

  /** The shortest digits of `n` ("0" for zero). */
  function NatDigits(n: nat): (s: string)
    ensures |s| > 0 && AllDigits(s)
  {
    if n < 10 then [DigitChar(n)] else NatDigits(n / 10) + [DigitChar(n % 10)]
  }

  function Zeros(k: nat): (s: string)
    ensures |s| == k && AllDigits(s)
  {
    seq(k, _ => '0')
  }

  /** `s` with zeros in front until it is at least `width` long. */
  function ZeroPad(s: string, width: nat): (t: string)
    requires AllDigits(s)
    ensures AllDigits(t) && |t| >= width && |t| >= |s|
  {
    if |s| >= width then s else Zeros(width - |s|) + s
  }

  /** The position of the first '.', or |s| when there is none. */
  function DotIndex(s: string): (k: nat)
    ensures k <= |s|
    ensures k < |s| ==> s[k] == '.'
    ensures forall i :: 0 <= i < k ==> s[i] != '.'
  {
    if s == [] then 0 else if s[0] == '.' then 0 else 1 + DotIndex(s[1..])
  }

  /** The unsigned text of n × 10^(-scale): at least one integer digit, and
      exactly `scale` digits after the point when `scale` > 0. */
  function Unsigned(n: nat, scale: nat): (s: string)
    ensures |s| > 0 && IsDigit(s[0])
  {
    var digits := ZeroPad(NatDigits(n), scale + 1);
    if scale == 0 then digits
    else digits[..|digits| - scale] + "." + digits[|digits| - scale..]
  }

  /** `str(d)` in plain notation: an optional '-' before the unsigned text, so
      '-' exactly for a negative coefficient. */
  function Format(d: Decimal): (s: string)
    ensures |s| > 0 && (s[0] == '-' <==> d.coef < 0)
  {
    if d.coef < 0 then "-" + Unsigned(-d.coef, d.scale) else Unsigned(d.coef, d.scale)
  }

  /** `Decimal(s)` for text without sign: digits with at most one '.', and at
      least one digit; the scale is the number of digits after the point. */
  function ParseUnsigned(s: string): Option<Decimal>
  {
    var k := DotIndex(s);
    var whole := s[..k];
    var fraction := if k < |s| then s[k + 1..] else "";
    if AllDigits(whole) && AllDigits(fraction) && |whole| + |fraction| > 0 then
      Some(Decimal(DigitsValue(whole + fraction), |fraction|))
    else
      None
  }

  /** `Decimal(s)`: an optional '+' or '-' before unsigned decimal text;
      anything else is None (Python raises InvalidOperation). Accepted text is
      not empty, and its value is negative only after a '-' and positive only
      without one. */
  function Parse(s: string): (r: Option<Decimal>)
    ensures r.Some? ==> |s| > 0
    ensures r.Some? && s[0] == '-' ==> r.value.coef <= 0
    ensures r.Some? && s[0] != '-' ==> r.value.coef >= 0
  {
    if |s| > 0 && (s[0] == '-' || s[0] == '+') then
      match ParseUnsigned(s[1..])
      case None => None
      case Some(d) => Some(if s[0] == '-' then Neg(d) else d)
    else
      ParseUnsigned(s)
  }

  lemma {:induction false} NatDigitsValue(n: nat)
    ensures DigitsValue(NatDigits(n)) == n
  {
    if n >= 10 {
      var s := NatDigits(n);
      assert s[..|s| - 1] == NatDigits(n / 10);
      NatDigitsValue(n / 10);
    }
  }

  lemma {:induction false} ZerosValue(k: nat)
    ensures DigitsValue(Zeros(k)) == 0
  {
    if k > 0 {
      assert Zeros(k)[..k - 1] == Zeros(k - 1);
      ZerosValue(k - 1);
    }
  }

  /** Leading zeros do not change the number digits denote. */
  lemma {:induction false} LeadingZerosValue(k: nat, s: string)
    requires AllDigits(s)
    ensures DigitsValue(Zeros(k) + s) == DigitsValue(s)
  {
    if s == [] {
      assert Zeros(k) + s == Zeros(k);
      ZerosValue(k);
    } else {
      var t := Zeros(k) + s;
      assert t[..|t| - 1] == Zeros(k) + s[..|s| - 1];
      LeadingZerosValue(k, s[..|s| - 1]);
    }
  }

  lemma {:induction false} ZeroPadValue(s: string, width: nat)
    requires AllDigits(s)
    ensures DigitsValue(ZeroPad(s, width)) == DigitsValue(s)
  {
    if |s| < width {
      LeadingZerosValue(width - |s|, s);
    }
  }

  lemma {:induction false} DotIndexOfDigits(w: string, rest: string)
    requires AllDigits(w)
    requires rest == [] || rest[0] == '.'
    ensures DotIndex(w + rest) == |w|
  {
    if w != [] {
      assert (w + rest)[1..] == w[1..] + rest;
      DotIndexOfDigits(w[1..], rest);
    }
  }

  lemma ParseUnsignedWhole(digits: string)
    requires AllDigits(digits) && |digits| > 0
    ensures ParseUnsigned(digits) == Some(Decimal(DigitsValue(digits), 0))
  {
    DotIndexOfDigits(digits, "");
    assert digits + "" == digits;
    assert digits[..|digits|] == digits;
  }

  lemma ParseUnsignedPoint(whole: string, fraction: string)
    requires AllDigits(whole) && AllDigits(fraction) && |whole| + |fraction| > 0
    ensures ParseUnsigned(whole + "." + fraction) == Some(Decimal(DigitsValue(whole + fraction), |fraction|))
  {
    var text := whole + "." + fraction;
    assert text == whole + ("." + fraction);
    DotIndexOfDigits(whole, "." + fraction);
    var k := DotIndex(text);
    assert k == |whole| < |text|;
    assert text[..k] == whole;
    assert text[k + 1..] == fraction;
  }

  /** The value an optional sign gives to a magnitude. */
  function Signed(sign: string, v: nat): int
  {
    if sign == "-" then -(v as int) else v
  }

  /** A sign in front of unsigned text that does not itself start with a sign. */
  lemma ParseWithSign(sign: string, u: string, v: nat, scale: nat)
    requires sign == "" || sign == "+" || sign == "-"
    requires |u| > 0 && (u[0] == '.' || IsDigit(u[0])) && ParseUnsigned(u) == Some(Decimal(v, scale))
    ensures Parse(sign + u) == Some(Decimal(Signed(sign, v), scale))
  {
    if sign != "" {
      assert (sign + u)[1..] == u;
    } else {
      assert sign + u == u;
    }
  }

  /** Signed decimal text with a point reads as its digits over 10^(digits
      after the point): `Decimal('-0.5')`, `Decimal('+.5')` and `Decimal('5.')`
      are all of this form. */
  lemma ParseSignedPoint(sign: string, whole: string, fraction: string)
    requires sign == "" || sign == "+" || sign == "-"
    requires AllDigits(whole) && AllDigits(fraction) && |whole| + |fraction| > 0
    ensures Parse(sign + (whole + "." + fraction)) == Some(Decimal(Signed(sign, DigitsValue(whole + fraction)), |fraction|))
  {
    var pointed := whole + "." + fraction;
    ParseUnsignedPoint(whole, fraction);
    if |whole| > 0 {
      assert pointed[0] == whole[0];
    } else {
      assert pointed[0] == '.';
    }
    ParseWithSign(sign, pointed, DigitsValue(whole + fraction), |fraction|);
  }

  /** Signed digits without a point read as a whole number, leading zeros
      ignored: `Decimal('-042')` is -42. */
  lemma ParseSignedWhole(sign: string, whole: string)
    requires sign == "" || sign == "+" || sign == "-"
    requires AllDigits(whole) && |whole| > 0
    ensures Parse(sign + whole) == Some(Decimal(Signed(sign, DigitsValue(whole)), 0))
  {
    ParseUnsignedWhole(whole);
    ParseWithSign(sign, whole, DigitsValue(whole), 0);
  }

  /** Unsigned text that reads as a decimal has a digit, and is digits with
      at most one '.'. */
  lemma ParseUnsignedShape(s: string)
    requires ParseUnsigned(s).Some?
    ensures exists i :: 0 <= i < |s| && IsDigit(s[i])
    ensures forall i :: 0 <= i < |s| ==> IsDigit(s[i]) || s[i] == '.'
    ensures forall i, j :: 0 <= i < j < |s| && s[i] == '.' ==> s[j] != '.'
  {
    var k := DotIndex(s);
    var whole := s[..k];
    var fraction := if k < |s| then s[k + 1..] else "";
    assert forall i :: 0 <= i < k ==> s[i] == whole[i];
    assert forall i :: k < i < |s| ==> s[i] == fraction[i - k - 1];
    if k > 0 {
      assert IsDigit(s[0]);
    } else {
      assert IsDigit(s[k + 1]);
    }
  }

  /** Which texts `Decimal(s)` accepts here: besides a leading '+' or '-', only
      digits and at most one '.', with at least one digit; so "", ".", "-",
      "1e2" and "1.2.3" are all rejected. */
  lemma ParseShape(s: string)
    requires Parse(s).Some?
    ensures exists i :: 0 <= i < |s| && IsDigit(s[i])
    ensures forall i :: 0 <= i < |s| ==> IsDigit(s[i]) || s[i] == '.' || (i == 0 && (s[i] == '-' || s[i] == '+'))
    ensures forall i, j :: 0 <= i < j < |s| && s[i] == '.' ==> s[j] != '.'
  {
    if |s| > 0 && (s[0] == '-' || s[0] == '+') {
      var u := s[1..];
      ParseUnsignedShape(u);
      assert forall i :: 0 < i < |s| ==> s[i] == u[i - 1];
      var i :| 0 <= i < |u| && IsDigit(u[i]);
      assert IsDigit(s[i + 1]);
    } else {
      ParseUnsignedShape(s);
    }
  }

  /** Digits, a '.', and digits: the '.' is the only non-digit, `|fraction|`
      places from the end. */
  lemma PointLayout(whole: string, fraction: string)
    requires AllDigits(whole) && AllDigits(fraction)
    ensures var s := whole + "." + fraction;
            && (forall i :: 0 <= i < |s| ==> (s[i] == '.' <==> i == |s| - |fraction| - 1))
            && (forall i :: 0 <= i < |s| && s[i] != '.' ==> IsDigit(s[i]))
  {
    var s := whole + "." + fraction;
    assert forall i :: 0 <= i < |whole| ==> s[i] == whole[i];
    assert forall i :: |whole| < i < |s| ==> s[i] == fraction[i - |whole| - 1];
  }

  /** The layout of unsigned text: digits, and one '.' exactly `scale`
      places from the end when `scale` > 0. */
  lemma UnsignedShape(n: nat, scale: nat)
    ensures var s := Unsigned(n, scale);
            && (forall i :: 0 <= i < |s| ==> (s[i] == '.' <==> scale > 0 && i == |s| - scale - 1))
            && (forall i :: 0 <= i < |s| && s[i] != '.' ==> IsDigit(s[i]))
  {
    var digits := ZeroPad(NatDigits(n), scale + 1);
    if scale > 0 {
      var whole, fraction := digits[..|digits| - scale], digits[|digits| - scale..];
      assert Unsigned(n, scale) == whole + "." + fraction;
      PointLayout(whole, fraction);
    } else {
      assert Unsigned(n, scale) == digits;
    }
  }

  /** The layout of `str(d)`: after an optional '-', digits, with a '.'
      followed by exactly `scale` digits when `scale` > 0 and no '.' otherwise. */
  lemma FormatShape(d: Decimal)
    ensures var s := Format(d);
            && (forall i :: 0 <= i < |s| ==> (s[i] == '.' <==> d.scale > 0 && i == |s| - d.scale - 1))
            && (forall i :: 0 < i < |s| && s[i] != '.' ==> IsDigit(s[i]))
  {
    UnsignedShape(Abs(d.coef), d.scale);
    if d.coef < 0 {
      var u := Unsigned(-d.coef, d.scale);
      assert forall i :: 0 < i < |u| + 1 ==> ("-" + u)[i] == u[i - 1];
    }
  }

  /** Reading back the unsigned text of a non-negative decimal gives that decimal. */
  lemma {:induction false} ParseUnsignedFormat(n: nat, scale: nat)
    ensures ParseUnsigned(Unsigned(n, scale)) == Some(Decimal(n, scale))
  {
    var digits := ZeroPad(NatDigits(n), scale + 1);
    NatDigitsValue(n);
    ZeroPadValue(NatDigits(n), scale + 1);
    if scale == 0 {
      ParseUnsignedWhole(digits);
    } else {
      var whole, fraction := digits[..|digits| - scale], digits[|digits| - scale..];
      assert whole + fraction == digits;
      ParseUnsignedPoint(whole, fraction);
    }
  }

  /** Round trip: `Decimal(str(d)) == d`, with the same scale, for every decimal. */
  lemma {:induction false} ParseFormat(d: Decimal)
    ensures Parse(Format(d)) == Some(d)
  {
    var body := Unsigned(Abs(d.coef), d.scale);
    ParseUnsignedFormat(Abs(d.coef), d.scale);
    if d.coef < 0 {
      assert Format(d) == "-" + body;
      assert ("-" + body)[1..] == body;
      assert Neg(Decimal(Abs(d.coef), d.scale)) == d;
    } else {
      assert Format(d) == body;
      assert body[0] != '-' && body[0] != '+';
    }
  }
}
