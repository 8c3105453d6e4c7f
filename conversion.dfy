/** The supported currencies and `convert` (app-1.py), with the NBP request
    `NBPData.from_currency` taken as a parameter that may fail. */
module Conversion {
  import opened Results
  import opened Decimals
  import Rates
  import opened NbpData

  datatype Currency = PLN | EUR | GBP | USD

  /** The value of an enum member as written: PLN, EUR and GBP carry a
      trailing comma, which makes their values 1-tuples; USD's is a string. */
  datatype MemberValue = Tuple1(item: string) | Plain(s: string)

  function ValueOf(c: Currency): MemberValue
  {
    match c
    case PLN => Tuple1("pln")
    case EUR => Tuple1("eur")
    case GBP => Tuple1("gbp")
    case USD => Plain("usd")
  }

  /** `v[0]`: the element of a 1-tuple, or the first character of a string. */
  function First(v: MemberValue): string
    requires v.Plain? ==> |v.s| > 0
  {
    match v
    case Tuple1(item) => item
    case Plain(s) => s[..1]
  }

  /** `currency.value[0]`, the code `convert` compares and requests. */
  function Code(c: Currency): (code: string)
    ensures c == PLN <==> code == "pln"
    ensures c == EUR ==> code == "eur"
    ensures c == GBP ==> code == "gbp"
    ensures c == USD ==> code == "u"
  {
    First(ValueOf(c))
  }

  /** Distinct currencies have distinct codes, so `convert`'s code comparison
      is a currency comparison. */
  lemma CodeInjective(a: Currency, b: Currency)
    ensures Code(a) == Code(b) <==> a == b
  {
  }

  /** `NBPData.from_currency(code)`: the rate table for a code, or the error
      the request, the JSON decoding or the record decoding raised. */
  type Fetch = string -> Result<NBPData>

  /** What `convert` returns: a Decimal, Python's None, or a raised error. */
  datatype Outcome = Amount(value: Decimal) | NoneResult | Raised(error: Error)

  /** The outcome of one call together with the codes it requested, in order. */
  datatype Run = Run(outcome: Outcome, requested: seq<string>)

  /** `NBPData.from_currency(code).calc_pln_value(value)`: the request's
      error, IndexError for a table without rates, or the first rate's value. */
  function PlnValueOf(fetch: Fetch, code: string, value: Decimal): (r: Result<Decimal>)
    ensures fetch(code).Failure? ==> r == Failure(fetch(code).error)
    ensures fetch(code).Success? ==> (r.Failure? <==> fetch(code).value.rates == [])
    ensures fetch(code).Success? && r.Failure? ==> r.error == IndexError
    ensures fetch(code).Success? && r.Success? ==>
              r.value == Rates.CalcPlnValue(fetch(code).value.rates[0], value)
  {
    match fetch(code)
    case Failure(e) => Failure(e)
    case Success(data) => CalcPlnValue(data, value)
  }

  function OutcomeOf(r: Result<Decimal>): Outcome
  {
    match r
    case Failure(e) => Raised(e)
    case Success(d) => Amount(d)
  }

  /** `convert(value, curr_from, curr_to)`. None comes back exactly for złoty
      to a foreign currency; nothing is requested exactly for the identity and
      for złoty as the source; otherwise the source's table is requested first,
      and at most two tables are requested. Each branch is stated by the
      `Convert*` lemmas below. */
  function Convert(fetch: Fetch, value: Decimal, currFrom: Currency, currTo: Currency := PLN): (r: Run)
    ensures r.outcome.NoneResult? <==> currFrom == PLN && currTo != PLN
    ensures r.requested == [] <==> currFrom == currTo || currFrom == PLN
    ensures r.requested != [] ==> r.requested[0] == Code(currFrom) && |r.requested| <= 2
  {
    CodeInjective(currFrom, currTo);
    CodeInjective(currFrom, PLN);
    CodeInjective(currTo, PLN);
    var codeFrom := Code(currFrom);
    var codeTo := Code(currTo);
    if codeTo == codeFrom then
      Run(Amount(value), [])
    else if codeTo == "pln" then
      Run(OutcomeOf(PlnValueOf(fetch, codeFrom, value)), [codeFrom])
    else if codeFrom == "pln" then
      Run(NoneResult, [])
    else
      match PlnValueOf(fetch, codeFrom, value)
      case Failure(e) => Run(Raised(e), [codeFrom])
      case Success(plnFrom) =>
        var outcome :=
          match PlnValueOf(fetch, codeTo, Decimal(1, 0))
          case Failure(e) => Raised(e)
          case Success(plnTo) => OutcomeOf(DivideRoundHalfUp2(plnFrom, plnTo));
        Run(outcome, [codeFrom, codeTo])
  }

  /** Converting to the same currency returns the amount exactly as given,
      with no request and no rounding; this includes PLN to PLN. */
  lemma ConvertSameCurrency(fetch: Fetch, value: Decimal, c: Currency)
    ensures Convert(fetch, value, c, c) == Run(Amount(value), [])
  {
  }

  /** Converting to złoty, the default target, requests the source's table
      once and returns its first rate's value, or the error on the way. */
  lemma ConvertToPln(fetch: Fetch, value: Decimal, c: Currency)
    requires c != PLN
    ensures var run := Convert(fetch, value, c);
            && run == Convert(fetch, value, c, PLN)
            && run.requested == [Code(c)]
            && (fetch(Code(c)).Failure? ==> run.outcome == Raised(fetch(Code(c)).error))
            && (fetch(Code(c)).Success? && fetch(Code(c)).value.rates == [] ==> run.outcome == Raised(IndexError))
            && (fetch(Code(c)).Success? && fetch(Code(c)).value.rates != [] ==>
                  run.outcome == Amount(Rates.CalcPlnValue(fetch(Code(c)).value.rates[0], value)))
  {
    CodeInjective(c, PLN);
  }

  /** Converting from złoty to another currency is not implemented: the
      result is None, and nothing is requested. */
  lemma ConvertFromPln(fetch: Fetch, value: Decimal, c: Currency)
    requires c != PLN
    ensures Convert(fetch, value, PLN, c) == Run(NoneResult, [])
  {
    CodeInjective(c, PLN);
  }

  /** Between two foreign currencies the source table is requested first; the
      target table is requested only when the source side produced a value. */
  lemma ConvertCrossRequests(fetch: Fetch, value: Decimal, a: Currency, b: Currency)
    requires a != b && a != PLN && b != PLN
    ensures var run := Convert(fetch, value, a, b);
            && (fetch(Code(a)).Failure? ==> run == Run(Raised(fetch(Code(a)).error), [Code(a)]))
            && (fetch(Code(a)).Success? && fetch(Code(a)).value.rates == [] ==> run == Run(Raised(IndexError), [Code(a)]))
            && (fetch(Code(a)).Success? && fetch(Code(a)).value.rates != [] ==> run.requested == [Code(a), Code(b)])
            && (fetch(Code(a)).Success? && fetch(Code(a)).value.rates != [] && fetch(Code(b)).Failure? ==>
                  run.outcome == Raised(fetch(Code(b)).error))
            && (fetch(Code(a)).Success? && fetch(Code(a)).value.rates != [] &&
                fetch(Code(b)).Success? && fetch(Code(b)).value.rates == [] ==>
                  run.outcome == Raised(IndexError))
  {
    CodeInjective(a, b);
    CodeInjective(a, PLN);
    CodeInjective(b, PLN);
  }

  /** With both first rates at hand, the cross result is the source amount's
      złoty value divided by one target unit's złoty value (itself already
      rounded to grosze), rounded half up to two places; the division fails
      when that unit value rounded to zero. */
  lemma ConvertCrossValue(fetch: Fetch, value: Decimal, a: Currency, b: Currency)
    requires a != b && a != PLN && b != PLN
    requires fetch(Code(a)).Success? && fetch(Code(a)).value.rates != []
    requires fetch(Code(b)).Success? && fetch(Code(b)).value.rates != []
    ensures var plnFrom := Rates.CalcPlnValue(fetch(Code(a)).value.rates[0], value);
            var plnTo := Rates.CalcPlnValue(fetch(Code(b)).value.rates[0], Decimal(1, 0));
            var run := Convert(fetch, value, a, b);
            && (plnTo.coef == 0 ==>
                  run.outcome == Raised(if plnFrom.coef == 0 then DivisionUndefined else DivisionByZero))
            && (plnTo.coef != 0 ==>
                  run.outcome.Amount? && run.outcome.value.scale == 2
                  && RoundsHalfUp(QuotientNum(plnFrom, plnTo), QuotientDen(plnFrom, plnTo), run.outcome.value.coef))
  {
    CodeInjective(a, b);
    CodeInjective(a, PLN);
    CodeInjective(b, PLN);
  }

  /** One unit of a currency is worth zero grosze, and the cross division
      fails, exactly when its mid rate is below 0.005 in magnitude. */
  lemma UnitValueZero(rate: Rates.Rate)
    ensures Rates.CalcPlnValue(rate, Decimal(1, 0)).coef == 0 <==> 200 * Abs(rate.mid.coef) < Pow10(rate.mid.scale)
  {
    var c, p := rate.mid.coef, Pow10(rate.mid.scale);
    var h := Rates.CalcPlnValue(rate, Decimal(1, 0)).coef;
    assert c * 1 == c && rate.mid.scale + 0 == rate.mid.scale;
    assert RoundsHalfUp(c, p, h);
    if 200 * Abs(c) < p {
      assert RoundsHalfUp(c, p, 0);
      RoundsHalfUpUnique(c, p, h, 0);
    }
  }

  /** Every converted amount other than the identity has exactly two
      fractional digits. */
  lemma ConvertRoundsToCents(fetch: Fetch, value: Decimal, a: Currency, b: Currency)
    requires a != b
    ensures Convert(fetch, value, a, b).outcome.Amount? ==> Convert(fetch, value, a, b).outcome.value.scale == 2
  {
    CodeInjective(a, b);
  }

  /** The result depends on the fetcher only through the codes requested:
      two fetchers that agree on those give the same run. */
  lemma ConvertUsesOnlyRequested(f: Fetch, g: Fetch, value: Decimal, a: Currency, b: Currency)
    requires forall code :: code in Convert(f, value, a, b).requested ==> f(code) == g(code)
    ensures Convert(f, value, a, b) == Convert(g, value, a, b)
  {
    var codeA, codeB := Code(a), Code(b);
    if codeB != codeA && codeB != "pln" && codeA != "pln" {
      assert codeA in Convert(f, value, a, b).requested;
      if PlnValueOf(f, codeA, value).Success? {
        assert codeB in Convert(f, value, a, b).requested;
      }
    } else if codeB != codeA && codeB == "pln" {
      assert codeA in Convert(f, value, a, b).requested;
    }
  }

  /** USD's code is "u", the first letter of its string value: a USD
      conversion requests the table for "u". */
  lemma ConvertUsdRequestsU(fetch: Fetch, value: Decimal)
    ensures ValueOf(USD) == Plain("usd")
    ensures Convert(fetch, value, USD).requested == ["u"]
    ensures Convert(fetch, value, USD, EUR).requested[0] == "u"
  {
    ConvertToPln(fetch, value, USD);
    ConvertCrossRequests(fetch, value, USD, EUR);
  }

  function TableOf(code: string, mid: Decimal): NBPData
  {
    NBPData("A", code, code, [Rates.Rate(Rates.Text("1/A/NBP/2023"), Rates.Text("2023-12-11"), mid)])
  }

  /** A rate source that knows only GBP, at mid 4.50. */
  function GbpOnly(code: string): Result<NBPData>
  {
    if code == "gbp" then Success(TableOf("GBP", Decimal(450, 2))) else Failure(FetchFailed(code))
  }

  /** A rate source with EUR at mid 4.3366 and GBP at mid 1.17. */
  function EurAndGbp(code: string): Result<NBPData>
  {
    if code == "eur" then Success(TableOf("EUR", Decimal(43366, 4))) else Success(TableOf("GBP", Decimal(117, 2)))
  }

  /** 10.0 GBP at mid 4.50 is exactly 45.00 zł, after one request. */
  lemma ConvertToPlnExample()
    ensures Convert(GbpOnly, Decimal(100, 1), GBP) == Run(Amount(Decimal(4500, 2)), ["gbp"])
  {
    var gbp := Rates.Rate(Rates.Text("1/A/NBP/2023"), Rates.Text("2023-12-11"), Decimal(450, 2));
    assert TableOf("GBP", Decimal(450, 2)).rates[0] == gbp;
    assert Pow10(3) == 1000;
    assert RoundsHalfUp(45000, 1000, 4500);
    Rates.CalcPlnValueIs(gbp, Decimal(100, 1), 4500);
  }

  /** A request that fails surfaces as the raised error, not as a value. */
  lemma ConvertFailedRequestExample()
    ensures Convert(GbpOnly, Decimal(100, 1), EUR) == Run(Raised(FetchFailed("eur")), ["eur"])
  {
  }

  /** 100 EUR at mid 4.3366 is 433.66 zł; one GBP at mid 1.17 is 1.17 zł; so
      the result is 433.66 / 1.17 = 370.6495... rounded to 370.65. */
  lemma ConvertCrossExample()
    ensures Convert(EurAndGbp, Decimal(100, 0), EUR, GBP) == Run(Amount(Decimal(37065, 2)), ["eur", "gbp"])
  {
    var eur := Rates.Rate(Rates.Text("1/A/NBP/2023"), Rates.Text("2023-12-11"), Decimal(43366, 4));
    var gbp := Rates.Rate(Rates.Text("1/A/NBP/2023"), Rates.Text("2023-12-11"), Decimal(117, 2));
    assert TableOf("EUR", Decimal(43366, 4)).rates[0] == eur;
    assert TableOf("GBP", Decimal(117, 2)).rates[0] == gbp;
    assert Pow10(2) == 100 && Pow10(4) == 10000;
    assert RoundsHalfUp(4336600, 10000, 43366);
    Rates.CalcPlnValueIs(eur, Decimal(100, 0), 43366);
    assert RoundsHalfUp(117, 100, 117);
    Rates.CalcPlnValueIs(gbp, Decimal(1, 0), 117);
    var plnFrom, plnTo := Decimal(43366, 2), Decimal(117, 2);
    assert QuotientNum(plnFrom, plnTo) == 4336600 && QuotientDen(plnFrom, plnTo) == 11700;
    assert RoundsHalfUp(4336600, 11700, 37065);
    DivideRoundHalfUp2Unique(plnFrom, plnTo, 37065);
  }
}
