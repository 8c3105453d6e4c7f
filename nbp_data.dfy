/** A rate table for one currency as the NBP API returns it (`NBPData` in
    app-1.py); only its first rate is ever used. */
module NbpData {
  import opened Results
  import opened Decimals
  import Rates

  datatype NBPData = NBPData(table: string, code: string, currency: string, rates: seq<Rates.Rate>)

  /** `data.calc_pln_value(value)`: the first rate's value in złoty; nothing
      checks that the table has a rate, so an empty one raises IndexError. */
  function CalcPlnValue(data: NBPData, value: Decimal): (r: Result<Decimal>)
    ensures r.Failure? <==> data.rates == []
    ensures r.Failure? ==> r.error == IndexError
    ensures r.Success? ==> r.value.scale == 2
    ensures r.Success? ==> RoundsHalfUp(data.rates[0].mid.coef * value.coef,
                                        Pow10(data.rates[0].mid.scale + value.scale), r.value.coef)
  {
    if |data.rates| == 0 then Failure(IndexError) else Success(Rates.CalcPlnValue(data.rates[0], value))
  }

  /** Only the first rate matters: tables that agree on it agree on every
      amount, whatever their later rates and other fields. */
  lemma CalcPlnValueFirstRate(data: NBPData, other: NBPData, value: Decimal)
    requires data.rates != [] && other.rates != [] && data.rates[0] == other.rates[0]
    ensures CalcPlnValue(data, value) == CalcPlnValue(other, value)
    ensures CalcPlnValue(data, value) == Success(Rates.CalcPlnValue(data.rates[0], value))
  {
  }
}
