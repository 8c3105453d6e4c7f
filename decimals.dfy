/** Exact decimal arithmetic as the converter uses it: products of
    `Decimal`s, quotients, and `quantize(Decimal('0.01'), ROUND_HALF_UP)`. */
module Decimals {
  import opened Results

  /** The finite decimal number coef × 10^(-scale); `scale` counts the digits
      after the decimal point, so 4.3366 is Decimal(43366, 4) and 100.50 is
      Decimal(10050, 2). Like Python's `Decimal`, two values with different
      scales may be equal as numbers (see SameValue). */
  datatype Decimal = Decimal(coef: int, scale: nat)

  function Pow10(n: nat): (p: nat)
    ensures p >= 1
  {
    if n == 0 then 1 else 10 * Pow10(n - 1)
  }

  function Abs(x: int): nat
  {
    if x < 0 then -x else x
  }

  /** Numeric equality, Python's `==` on two `Decimal`s. */
  predicate SameValue(a: Decimal, b: Decimal)
  {
    a.coef * Pow10(b.scale) == b.coef * Pow10(a.scale)
  }

  function Neg(d: Decimal): Decimal
  {
    Decimal(-d.coef, d.scale)
  }

  lemma {:induction false} Pow10Add(m: nat, n: nat)
    ensures Pow10(m + n) == Pow10(m) * Pow10(n)
  {
    if m > 0 {
      Pow10Add(m - 1, n);
      assert Pow10(m + n) == 10 * Pow10(m - 1 + n);
    }
  }

  /** `a * b`: coefficients multiply and exponents add, so the product's value
      r.coef / 10^r.scale is (a.coef / 10^a.scale) · (b.coef / 10^b.scale),
      here with the denominators multiplied out. */
  function Mul(a: Decimal, b: Decimal): (r: Decimal)
    ensures r.scale == a.scale + b.scale
    ensures r.coef * (Pow10(a.scale) * Pow10(b.scale)) == (a.coef * b.coef) * Pow10(r.scale)
  {
    Pow10Add(a.scale, b.scale);
    Decimal(a.coef * b.coef, a.scale + b.scale)
  }

  /** `h` hundredths is the number num/den (den > 0) rounded to two decimal
      places with ROUND_HALF_UP: `e` is 100·den times the rounding error, so
      `h` is strictly nearest, or on an exact tie it is the neighbour farther
      from zero. */
  predicate RoundsHalfUp(num: int, den: int, h: int)
    requires den > 0
  {
    var e := h * den - 100 * num;
    2 * Abs(e) < den || (2 * Abs(e) == den && (if num >= 0 then e > 0 else e < 0))
  }

  lemma MulAtLeast(a: int, b: int)
    requires b > 0
    ensures a >= 1 ==> a * b >= b
  {
    assert a * b == (a - 1) * b + b;
    if a >= 1 {
      assert (a - 1) * b >= 0;
    }
  }

  /** The magnitude m/den (m >= 0) rounded half up from its Euclidean
      quotient and remainder: nearest, and on a tie the larger neighbour. */
  function MagnitudeHalfUp(m: nat, den: int): (mag: nat)
    requires den > 0
    ensures var e := mag * den - m;
            2 * Abs(e) < den || (2 * Abs(e) == den && e > 0)
  {
    var q, r := m / den, m % den;
    assert m == q * den + r;
    if 2 * r >= den then
      assert (q + 1) * den - m == den - r;
      q + 1
    else
      assert q * den - m == -r;
      q
  }

  /** The hundredths that ROUND_HALF_UP gives for num/den: the magnitude is
      rounded and the sign put back, so halves go away from zero. */
  function HundredthsHalfUp(num: int, den: int): (h: int)
    requires den > 0
    ensures RoundsHalfUp(num, den, h)
  {
    var m := Abs(100 * num);
    var mag: int := MagnitudeHalfUp(m, den);
    if num < 0 then
      assert (-mag) * den - 100 * num == -(mag * den - m);
      -mag
    else
      assert mag * den - 100 * num == mag * den - m;
      mag
  }

  /** At most one number of hundredths rounds num/den half up, so
      RoundsHalfUp characterises HundredthsHalfUp completely. */
  lemma {:induction false} RoundsHalfUpUnique(num: int, den: int, h: int, k: int)
    requires den > 0
    requires RoundsHalfUp(num, den, h) && RoundsHalfUp(num, den, k)
    ensures h == k
  {
    var eh, ek := h * den - 100 * num, k * den - 100 * num;
    assert ek - eh == (k - h) * den;
    assert eh - ek == (h - k) * den;
    MulAtLeast(k - h, den);
    MulAtLeast(h - k, den);
  }

  /** `d.quantize(Decimal('0.01'), rounding=ROUND_HALF_UP)` computed exactly:
      two fractional digits, at most half a cent from `d`, ties away from zero. */
  function RoundHalfUp2(d: Decimal): (r: Decimal)
    ensures r.scale == 2
    ensures RoundsHalfUp(d.coef, Pow10(d.scale), r.coef)
  {
    Decimal(HundredthsHalfUp(d.coef, Pow10(d.scale)), 2)
  }

  /** Whatever hundredths round `d` half up are the ones RoundHalfUp2 picks. */
  lemma RoundHalfUp2Unique(d: Decimal, k: int)
    requires RoundsHalfUp(d.coef, Pow10(d.scale), k)
    ensures RoundHalfUp2(d) == Decimal(k, 2)
  {
    RoundsHalfUpUnique(d.coef, Pow10(d.scale), RoundHalfUp2(d).coef, k);
  }

  lemma {:induction false} MultipleOfDivisor(x: int, p: int)
    requires p > 0
    ensures (x * p) % p == 0
  {
    var q, r := (x * p) / p, (x * p) % p;
    assert r == (x - q) * p;
    assert -r == (q - x) * p;
    MulAtLeast(x - q, p);
    MulAtLeast(q - x, p);
  }

  /** A half-up rounding is exact exactly when den divides 100·num. */
  lemma {:induction false} RoundsHalfUpExact(num: int, den: int, h: int)
    requires den > 0 && RoundsHalfUp(num, den, h)
    ensures h * den == 100 * num <==> (100 * num) % den == 0
  {
    if (100 * num) % den == 0 {
      var j := (100 * num) / den;
      assert 100 * num == j * den;
      assert h * den - 100 * num == (h - j) * den;
      assert 100 * num - h * den == (j - h) * den;
      MulAtLeast(h - j, den);
      MulAtLeast(j - h, den);
    }
    if h * den == 100 * num {
      MultipleOfDivisor(h, den);
    }
  }

  /** Rounding leaves `d`'s value unchanged exactly when `d` already has at
      most two significant fractional digits. */
  lemma RoundHalfUp2Exact(d: Decimal)
    ensures SameValue(RoundHalfUp2(d), d) <==> (100 * d.coef) % Pow10(d.scale) == 0
  {
    var r := RoundHalfUp2(d);
    assert Pow10(2) == 100;
    assert SameValue(r, d) <==> r.coef * Pow10(d.scale) == 100 * d.coef;
    RoundsHalfUpExact(d.coef, Pow10(d.scale), r.coef);
  }

  /** Away from zero, the half-up rule is symmetric: h rounds num exactly
      when -h rounds -num. */
  lemma RoundsHalfUpNegate(num: int, den: int, h: int)
    requires den > 0 && num != 0 && RoundsHalfUp(num, den, h)
    ensures RoundsHalfUp(-num, den, -h)
  {
    var e := h * den - 100 * num;
    assert (-h) * den - 100 * (-num) == -e;
  }

  /** ROUND_HALF_UP is symmetric about zero: negating the input negates the result. */
  lemma RoundHalfUp2Negate(d: Decimal)
    ensures RoundHalfUp2(Neg(d)) == Neg(RoundHalfUp2(d))
  {
    var p, h := Pow10(d.scale), RoundHalfUp2(d).coef;
    if d.coef == 0 {
      assert Neg(d) == d;
      assert RoundsHalfUp(0, p, 0);
      RoundsHalfUpUnique(0, p, h, 0);
    } else {
      RoundsHalfUpNegate(d.coef, p, h);
      RoundHalfUp2Unique(Neg(d), -h);
    }
  }

  /** Values on both sides of the rounding rule: ties go away from zero (not to
      even), and everything else to the nearest cent. */
  lemma RoundHalfUp2Examples()
    ensures RoundHalfUp2(Decimal(-5, 3)) == Decimal(-1, 2)     // -0.005 -> -0.01
    ensures RoundHalfUp2(Decimal(5, 3)) == Decimal(1, 2)       //  0.005 ->  0.01
    ensures RoundHalfUp2(Decimal(2675, 3)) == Decimal(268, 2)  //  2.675 ->  2.68
    ensures RoundHalfUp2(Decimal(2665, 3)) == Decimal(267, 2)  //  2.665 ->  2.67
    ensures RoundHalfUp2(Decimal(26649, 4)) == Decimal(266, 2) // 2.6649 ->  2.66
    ensures RoundHalfUp2(Decimal(4, 0)) == Decimal(400, 2)     //      4 ->  4.00
  {
    assert Pow10(3) == 1000 && Pow10(4) == 10000 && Pow10(0) == 1;
    RoundHalfUp2Unique(Decimal(-5, 3), -1);
    RoundHalfUp2Unique(Decimal(5, 3), 1);
    RoundHalfUp2Unique(Decimal(2675, 3), 268);
    RoundHalfUp2Unique(Decimal(2665, 3), 267);
    RoundHalfUp2Unique(Decimal(26649, 4), 266);
    RoundHalfUp2Unique(Decimal(4, 0), 400);
  }

  /** The exact quotient a/b as a fraction with a positive denominator. */
  function QuotientNum(a: Decimal, b: Decimal): int
  {
    if b.coef < 0 then -(a.coef * Pow10(b.scale)) else a.coef * Pow10(b.scale)
  }

  function QuotientDen(a: Decimal, b: Decimal): int
  {
    Abs(b.coef) * Pow10(a.scale)
  }

  /** `(a / b).quantize(Decimal('0.01'), rounding=ROUND_HALF_UP)` with the
      quotient taken exactly. Dividing by zero raises DivisionByZero, or
      InvalidOperation (the DivisionUndefined condition) when the dividend is
      zero as well. */
  function DivideRoundHalfUp2(a: Decimal, b: Decimal): (r: Result<Decimal>)
    ensures r.Success? <==> b.coef != 0
    ensures b.coef == 0 ==> r.error == (if a.coef == 0 then DivisionUndefined else DivisionByZero)
    ensures r.Success? ==> r.value.scale == 2 && RoundsHalfUp(QuotientNum(a, b), QuotientDen(a, b), r.value.coef)
  {
    if b.coef == 0 then
      Failure(if a.coef == 0 then DivisionUndefined else DivisionByZero)
    else
      assert QuotientDen(a, b) > 0 by { MulAtLeast(Abs(b.coef), Pow10(a.scale)); }
      Success(Decimal(HundredthsHalfUp(QuotientNum(a, b), QuotientDen(a, b)), 2))
  }

  /** Whatever hundredths round a/b half up are the ones DivideRoundHalfUp2 returns. */
  lemma DivideRoundHalfUp2Unique(a: Decimal, b: Decimal, k: int)
    requires b.coef != 0
    requires QuotientDen(a, b) > 0 && RoundsHalfUp(QuotientNum(a, b), QuotientDen(a, b), k)
    ensures DivideRoundHalfUp2(a, b) == Success(Decimal(k, 2))
  {
    RoundsHalfUpUnique(QuotientNum(a, b), QuotientDen(a, b), DivideRoundHalfUp2(a, b).value.coef, k);
  }

  /** The rounded quotient r is within 0.005 of a/b, in value terms:
      |r − a/b| ≤ 0.005 multiplied through by 100·|b.coef|·10^a.scale. */
  lemma {:induction false} DivideRoundHalfUp2Bound(a: Decimal, b: Decimal)
    requires b.coef != 0
    ensures var r := DivideRoundHalfUp2(a, b).value;
            2 * Abs(r.coef * b.coef * Pow10(a.scale) - 100 * (a.coef * Pow10(b.scale)))
              <= Abs(b.coef) * Pow10(a.scale)
  {
    var c := DivideRoundHalfUp2(a, b).value.coef;
    var num, den := QuotientNum(a, b), QuotientDen(a, b);
    assert RoundsHalfUp(num, den, c);
    var e := c * den - 100 * num;
    assert 2 * Abs(e) <= den;
    SignedError(c, b.coef, Pow10(a.scale), a.coef * Pow10(b.scale));
    assert Abs(e) == Abs(c * b.coef * Pow10(a.scale) - 100 * (a.coef * Pow10(b.scale)));
  }

  lemma SignedError(c: int, bc: int, p: int, n: int)
    requires bc != 0 && p > 0
    ensures Abs(c * (Abs(bc) * p) - 100 * (if bc < 0 then -n else n)) == Abs(c * bc * p - 100 * n)
  {
    var x := c * bc * p - 100 * n;
    if bc < 0 {
      assert Abs(bc) * p == -(bc * p);
      assert c * (Abs(bc) * p) == -(c * bc * p);
      assert c * (Abs(bc) * p) - 100 * -n == -x;
    } else {
      assert c * (Abs(bc) * p) == c * bc * p;
    }
  }
}
