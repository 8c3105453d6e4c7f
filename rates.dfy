/** One quoted exchange rate (`Rate` in app-1.py): its value in złoty for an
    amount, and its construction from a decoded JSON record. */
module Rates {
  import opened Results
  import opened Decimals
  import DecimalText

  /** A value in a decoded record: JSON text, a JSON number (whose `str` is
      taken to be its plain decimal text), or a `Decimal` put there by FromDict. */
  datatype Value = Text(s: string) | JsonNumber(n: Decimal) | DecimalValue(d: Decimal)

  /** `str(v)`. */
  function Str(v: Value): string
  {
    match v
    case Text(s) => s
    case JsonNumber(n) => DecimalText.Format(n)
    case DecimalValue(d) => DecimalText.Format(d)
  }

  /** A rate: `no` and `effectiveDate` are whatever the record held (the
      dataclass does not check its field types); `mid` is złoty per unit. */
  datatype Rate = Rate(no: Value, effectiveDate: Value, mid: Decimal)

  /** The keyword parameters of the generated `Rate.__init__`. */
  const FieldNames: set<string> := {"no", "effectiveDate", "mid"}

  /** `rate.calc_pln_value(value)`: the złoty value of `value` units, that is
      mid × value rounded half away from zero to whole grosze. */
  function CalcPlnValue(rate: Rate, value: Decimal): (r: Decimal)
    ensures r.scale == 2
    ensures RoundsHalfUp(rate.mid.coef * value.coef, Pow10(rate.mid.scale + value.scale), r.coef)
  {
    RoundHalfUp2(Mul(rate.mid, value))
  }

  /** The złoty value equals the exact product mid × value exactly when that
      product has at most two significant fractional digits. */
  lemma CalcPlnValueExact(rate: Rate, value: Decimal)
    ensures var p := Mul(rate.mid, value);
            SameValue(CalcPlnValue(rate, value), p) <==> (100 * p.coef) % Pow10(p.scale) == 0
  {
    RoundHalfUp2Exact(Mul(rate.mid, value));
  }

  /** Whatever hundredths round mid × value half up are the złoty value. */
  lemma CalcPlnValueIs(rate: Rate, value: Decimal, k: int)
    requires RoundsHalfUp(rate.mid.coef * value.coef, Pow10(rate.mid.scale + value.scale), k)
    ensures CalcPlnValue(rate, value) == Decimal(k, 2)
  {
    RoundHalfUp2Unique(Mul(rate.mid, value), k);
  }

  /** `Decimal(str(v))` gives back the decimal a JSON number or a Decimal holds. */
  lemma StrReadsBack(v: Value)
    ensures v.JsonNumber? ==> DecimalText.Parse(Str(v)) == Some(v.n)
    ensures v.DecimalValue? ==> DecimalText.Parse(Str(v)) == Some(v.d)
  {
    match v
    case Text(_) =>
    case JsonNumber(n) => DecimalText.ParseFormat(n);
    case DecimalValue(d) => DecimalText.ParseFormat(d);
  }

  /** `Decimal(str(data['mid']))`: a KeyError when the record has no 'mid',
      InvalidOperation when its text is not a decimal number. A JSON number or
      a Decimal under 'mid' is read back exactly. */
  function ReadMid(entries: map<string, Value>): (r: Result<Decimal>)
    ensures "mid" !in entries ==> r == Failure(KeyError("mid"))
    ensures "mid" in entries ==>
              (r.Success? <==> DecimalText.Parse(Str(entries["mid"])).Some?)
              && (r.Success? ==> DecimalText.Parse(Str(entries["mid"])) == Some(r.value))
              && (r.Failure? ==> r.error == ConversionSyntax(Str(entries["mid"])))
    ensures "mid" in entries && entries["mid"].JsonNumber? ==> r == Success(entries["mid"].n)
    ensures "mid" in entries && entries["mid"].DecimalValue? ==> r == Success(entries["mid"].d)
  {
    if "mid" !in entries then
      Failure(KeyError("mid"))
    else
      StrReadsBack(entries["mid"]);
      match DecimalText.Parse(Str(entries["mid"]))
      case None => Failure(ConversionSyntax(Str(entries["mid"])))
      case Some(d) => Success(d)
  }

  /** The caller's record after `from_dict`: once 'mid' has been read, its
      entry holds that Decimal; no other entry changes, and nothing changes when
      reading 'mid' raised. */
  function UpdatedEntries(entries: map<string, Value>): (r: map<string, Value>)
    ensures r.Keys == entries.Keys
    ensures forall k :: k in entries && k != "mid" ==> r[k] == entries[k]
    ensures ReadMid(entries).Success? ==> r["mid"] == DecimalValue(ReadMid(entries).value)
    ensures ReadMid(entries).Failure? ==> r == entries
  {
    match ReadMid(entries)
    case Failure(_) => entries
    case Success(d) => entries["mid" := DecimalValue(d)]
  }

  /** The value `from_dict` returns: `Rate(**data)` after 'mid' was replaced;
      a TypeError unless the record has exactly the fields of a Rate. */
  function DecodeRate(entries: map<string, Value>): (r: Result<Rate>)
    ensures r.Success? <==> ReadMid(entries).Success? && entries.Keys == FieldNames
    ensures r.Success? ==> r.value == Rate(entries["no"], entries["effectiveDate"], ReadMid(entries).value)
    ensures ReadMid(entries).Failure? ==> r == Failure(ReadMid(entries).error)
    ensures ReadMid(entries).Success? && entries.Keys != FieldNames ==> r == Failure(TypeError)
  {
    match ReadMid(entries)
    case Failure(e) => Failure(e)
    case Success(mid) =>
      var data := entries["mid" := DecimalValue(mid)];
      if data.Keys == FieldNames then Success(Rate(data["no"], data["effectiveDate"], mid))
      else Failure(TypeError)
  }

  /** A Python dict passed by reference: `from_dict` updates it in place. */
  class Dict {
    var entries: map<string, Value>
  }

  /** `Rate.from_dict(data)`: reads 'mid' as a Decimal, stores it back into
      the caller's dict, then builds the Rate from the dict's fields. */
  method FromDict(data: Dict) returns (r: Result<Rate>)
    modifies data
    ensures r == DecodeRate(old(data.entries))
    ensures data.entries == UpdatedEntries(old(data.entries))
  {
    if "mid" !in data.entries {
      return Failure(KeyError("mid"));
    }
    var text := Str(data.entries["mid"]);
    var mid := DecimalText.Parse(text);
    if mid.None? {
      return Failure(ConversionSyntax(text));
    }
    data.entries := data.entries["mid" := DecimalValue(mid.value)];
    if data.entries.Keys != FieldNames {
      return Failure(TypeError);
    }
    r := Success(Rate(data.entries["no"], data.entries["effectiveDate"], mid.value));
  }

  /** A rate read from a JSON number and one read from the same number written
      as text carry the identical decimal, equal to the number itself, as does
      a record whose 'mid' is already that Decimal. */
  lemma MidReadExactly(entries: map<string, Value>, d: Decimal)
    ensures ReadMid(entries["mid" := JsonNumber(d)]) == Success(d)
    ensures ReadMid(entries["mid" := Text(DecimalText.Format(d))]) == Success(d)
    ensures ReadMid(entries["mid" := DecimalValue(d)]) == Success(d)
  {
    DecimalText.ParseFormat(d);
  }

  /** Decoding the record `from_dict` left behind gives the same result as
      decoding the original, so calling `from_dict` twice on one dict is harmless. */
  lemma DecodeRateUpdated(entries: map<string, Value>)
    ensures DecodeRate(UpdatedEntries(entries)) == DecodeRate(entries)
    ensures UpdatedEntries(UpdatedEntries(entries)) == UpdatedEntries(entries)
  {
    if ReadMid(entries).Success? {
      DecimalText.ParseFormat(ReadMid(entries).value);
    }
  }

  /** The record from the NBP response for 2023-12-11 decodes to mid 4.3366. */
  lemma DecodeRateExample()
    ensures var rec := map["no" := Text("239/A/NBP/2023"), "effectiveDate" := Text("2023-12-11"),
                           "mid" := JsonNumber(Decimal(43366, 4))];
            DecodeRate(rec) == Success(Rate(Text("239/A/NBP/2023"), Text("2023-12-11"), Decimal(43366, 4)))
  {
    var rec := map["no" := Text("239/A/NBP/2023"), "effectiveDate" := Text("2023-12-11"),
                   "mid" := JsonNumber(Decimal(43366, 4))];
    assert ReadMid(rec) == Success(Decimal(43366, 4));
    assert rec.Keys == FieldNames;
  }

  /** At mid 4.3366, 100 units are worth 433.66 zł. */
  lemma CalcPlnValueExample()
    ensures CalcPlnValue(Rate(Text("1"), Text("2023"), Decimal(43366, 4)), Decimal(100, 0)) == Decimal(43366, 2)
  {
    assert Pow10(4) == 10000;
    assert RoundsHalfUp(4336600, 10000, 43366);
    CalcPlnValueIs(Rate(Text("1"), Text("2023"), Decimal(43366, 4)), Decimal(100, 0), 43366);
  }

  /** At mid 1.005, 100 units are worth exactly 100.50 zł: the product is
      taken on decimals, so no binary representation error creeps in. */
  lemma CalcPlnValueExactExample()
    ensures CalcPlnValue(Rate(Text("1"), Text("2023"), Decimal(1005, 3)), Decimal(100, 0)) == Decimal(10050, 2)
  {
    assert Pow10(3) == 1000;
    assert RoundsHalfUp(100500, 1000, 10050);
    CalcPlnValueIs(Rate(Text("1"), Text("2023"), Decimal(1005, 3)), Decimal(100, 0), 10050);
  }

  /** At mid 12.2, 12.3128 units (150.21616 exactly) are worth 150.22 zł. */
  lemma CalcPlnValueRoundingExample()
    ensures CalcPlnValue(Rate(Text("1"), Text("2023"), Decimal(122, 1)), Decimal(123128, 4)) == Decimal(15022, 2)
  {
    assert Pow10(5) == 100000;
    assert RoundsHalfUp(15021616, 100000, 15022);
    CalcPlnValueIs(Rate(Text("1"), Text("2023"), Decimal(122, 1)), Decimal(123128, 4), 15022);
  }
}
