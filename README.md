# Currency conversion through NBP mid rates, modelled in Dafny

`app-1.py` converts an amount of money between złoty (PLN), euro (EUR),
pound sterling (GBP) and US dollar (USD). For a foreign currency it asks the
NBP (Narodowy Bank Polski) API for a rate table, takes the first rate's `mid`
(złoty per unit), and multiplies. It then rounds to grosze (hundredths) with
`ROUND_HALF_UP`. A conversion between two foreign currencies divides two złoty
values and rounds again. A conversion from PLN to a foreign currency is not
implemented and returns `None`.

This project models that core on exact decimals:

- `Decimals`: a `Decimal` is an integer coefficient with a count of
  fractional digits. Multiplication and division are exact.
  `RoundHalfUp2` is `quantize(Decimal('0.01'), ROUND_HALF_UP)`. It is
  specified by the predicate `RoundsHalfUp`: the nearest hundredth, and on a
  tie the one farther from zero. `DivideRoundHalfUp2` is a quotient followed
  by that rounding. Dividing by zero raises DivisionByZero, and dividing
  zero by zero raises InvalidOperation (the DivisionUndefined condition).
  The error constructors are named after Python's exceptions, or, where
  Python raises InvalidOperation, after the condition it reports
  (ConversionSyntax, DivisionUndefined).
- `DecimalText`: `str` of a decimal in plain notation, and `Decimal(text)`
  for plain decimal text. Reading back written text gives the same decimal,
  and signed text with or without a point reads as its digits.
- `Rates`: `Rate.calc_pln_value` and `Rate.from_dict`. `FromDict` is a
  module-level method that takes the caller's dict as a `Dict` object and
  updates it in place. It stores the decoded `mid` back into the
  caller's dict before building the `Rate`, as `data |= {...}` does.
- `NbpData`: `NBPData.calc_pln_value`, which uses only `rates[0]` and raises
  `IndexError` on an empty table.
- `Conversion`: the `Currency` enum, the code `convert` derives from it
  (`.value[0]`), and `convert`. The NBP request `NBPData.from_currency` is a
  parameter `fetch: string -> Result<NBPData>` that may fail. `Convert`
  returns the outcome together with the codes it requested, so "no request"
  and "one request" can be stated.

The enum as written gives USD the code `"u"`. PLN, EUR and GBP have a
trailing comma, so their values are 1-tuples and `.value[0]` is the whole
string. USD's value is the string `'usd'`, and `.value[0]` is its first
letter. The model keeps this: a USD conversion requests the table for `"u"`.

## Model

| member | source | states |
|---|---|---|
| Decimals.Mul | app-1.py:32 | the product `mid * value` has the sum of the scales, and its value is the product of the two values |
| Decimals.HundredthsHalfUp | app-1.py:32 | the hundredths it returns for num/den are the half-up rounding: nearest, ties away from zero |
| Decimals.RoundsHalfUpUnique | app-1.py:32 | at most one number of hundredths satisfies the half-up rule, so the rule determines the result |
| Decimals.RoundHalfUp2 | app-1.py:32 | quantize to 0.01 with ROUND_HALF_UP gives exactly two fractional digits and the half-up rounding of the input |
| Decimals.RoundHalfUp2Unique | app-1.py:32 | any hundredths that round the input half up are the ones RoundHalfUp2 returns |
| Decimals.RoundsHalfUpExact | app-1.py:32 | a half-up rounding of num/den is exact exactly when den divides 100·num |
| Decimals.RoundHalfUp2Exact | app-1.py:32 | rounding keeps the value unchanged exactly when the input has at most two significant fractional digits |
| Decimals.RoundsHalfUpNegate | app-1.py:32 | for a nonzero input, if h hundredths round num half up then -h round -num (the converse is the same lemma at -num, -h) |
| Decimals.RoundHalfUp2Negate | app-1.py:32 | ROUND_HALF_UP is symmetric about zero: rounding -d gives minus the rounding of d |
| Decimals.RoundHalfUp2Examples | app-1.py:32 | -0.005 rounds to -0.01, 0.005 to 0.01, 2.675 to 2.68 and 2.665 to 2.67 (not to even), 2.6649 to 2.66, 4 to 4.00 |
| Decimals.DivideRoundHalfUp2 | app-1.py:84 | the quotient succeeds exactly when the divisor is nonzero and is then the half-up rounding of a/b to two places; x/0 raises DivisionByZero and 0/0 raises InvalidOperation (the DivisionUndefined condition) |
| Decimals.DivideRoundHalfUp2Unique | app-1.py:84 | any hundredths that round a/b half up are the ones the rounded division returns |
| Decimals.DivideRoundHalfUp2Bound | app-1.py:84 | the rounded quotient is within 0.005 of the exact quotient a/b |
| DecimalText.Format | app-1.py:40 | `str(d)` is non-empty and starts with '-' exactly for a negative coefficient |
| DecimalText.FormatShape | app-1.py:40 | `str(d)` is digits after an optional '-', with a '.' followed by exactly `scale` digits when the scale is positive and no '.' otherwise |
| DecimalText.Parse | app-1.py:40 | `Decimal(text)` accepts only non-empty text; the value is at most zero after a '-' and at least zero otherwise |
| DecimalText.ParseShape | app-1.py:40 | text that `Decimal(text)` accepts has a digit, at most one '.', and nothing but digits and '.' after an optional leading sign |
| DecimalText.ParseSignedPoint | app-1.py:40 | a sign ('', '+' or '-'), digits, '.', digits (at least one digit in all) reads as the signed value of all the digits, with as many fractional digits as follow the point |
| DecimalText.ParseSignedWhole | app-1.py:40 | a sign and a non-empty run of digits reads as the signed whole number the digits denote, leading zeros ignored |
| DecimalText.ParseFormat | app-1.py:40 | `Decimal(str(d))` gives back d, with the same number of fractional digits |
| Rates.CalcPlnValue | app-1.py:31-32 | the złoty value has two fractional digits and is mid × value rounded half away from zero |
| Rates.CalcPlnValueExact | app-1.py:31-32 | the złoty value equals the exact product exactly when that product has at most two significant fractional digits |
| Rates.ReadMid | app-1.py:40 | reading 'mid' raises KeyError when it is absent and InvalidOperation when its text is not a decimal; a JSON number or a Decimal under 'mid' is read back as exactly that decimal |
| Rates.StrReadsBack | app-1.py:40 | `Decimal(str(v))`, with `Rates.Str` as `str(v)`, gives back the decimal that a JSON number or a Decimal v holds |
| Rates.UpdatedEntries | app-1.py:40 | after from_dict the caller's record has the same keys, 'mid' holds the decoded Decimal, every other entry is unchanged, and nothing changes if reading 'mid' raised |
| Rates.DecodeRate | app-1.py:37-41 | a Rate comes back exactly when 'mid' decodes and the record has exactly the fields no, effectiveDate and mid; no and effectiveDate are kept as given; otherwise the KeyError, InvalidOperation or TypeError |
| Rates.FromDict | app-1.py:36-41 | returns the decoded Rate or error, and leaves the caller's dict with 'mid' replaced by the decoded Decimal |
| Rates.MidReadExactly | app-1.py:40 | a JSON number, the same number as text, and the same value as a Decimal all decode to that exact decimal |
| Rates.DecodeRateUpdated | app-1.py:37-41 | decoding the record that from_dict left behind gives the same result as the original, and a second update changes nothing |
| Rates.DecodeRateExample | app-1.py:39-41 | the 2023-12-11 NBP record, with mid given as the JSON number 4.3366, decodes to a Rate with mid exactly 4.3366 |
| Rates.CalcPlnValueIs | app-1.py:31-32 | any hundredths that round mid × value half up are the złoty value the rate gives |
| Rates.CalcPlnValueExample | app-1.py:31-32 | at mid 4.3366, 100 units are worth 433.66 zł |
| Rates.CalcPlnValueExactExample | app-1.py:31-32 | at mid 1.005, 100 units are worth exactly 100.50 zł, with no binary floating-point error |
| Rates.CalcPlnValueRoundingExample | app-1.py:89-91 | at mid 12.2, 12.3128 units (exactly 150.21616) are worth 150.22 zł |
| NbpData.CalcPlnValue | app-1.py:51-53 | raises IndexError exactly when the table has no rate; otherwise the first rate's value, rounded half up to two places |
| NbpData.CalcPlnValueFirstRate | app-1.py:51-53 | tables that share their first rate agree on every amount, whatever their later rates |
| Conversion.Code | app-1.py:62-70 | the code is "pln", "eur", "gbp" for the tuple-valued members and "u" for USD; it is "pln" exactly for PLN |
| Conversion.CodeInjective | app-1.py:62-72 | distinct currencies have distinct codes, so comparing codes compares currencies |
| Conversion.PlnValueOf | app-1.py:76 | the table request's error, IndexError when the table has no rate, or else the first rate's złoty value for the amount |
| Conversion.Convert | app-1.py:68-84 | None comes back exactly from PLN to a foreign currency; nothing is requested exactly for the identity and from PLN; otherwise the source's code is requested first and at most two codes are requested (each branch's result is stated by the rows below) |
| Conversion.ConvertSameCurrency | app-1.py:72-73 | same currency: the amount comes back unchanged, with no request and no rounding, PLN to PLN included |
| Conversion.ConvertToPln | app-1.py:68-76 | target PLN, also by default: one request for the source code; the result is its first rate's value, or IndexError on an empty table, or the request's error |
| Conversion.ConvertFromPln | app-1.py:78-80 | PLN to a foreign currency gives None and requests nothing |
| Conversion.ConvertCrossRequests | app-1.py:82-83 | between foreign currencies the source table is requested first; if it fails or is empty that error is raised and the target is never requested; otherwise both are requested and the target's errors are raised |
| Conversion.ConvertCrossValue | app-1.py:82-84 | with both first rates present, the result is the source złoty value divided by one target unit's rounded złoty value, rounded half up; if that unit value is zero, a division error is raised |
| Conversion.UnitValueZero | app-1.py:83-84 | one unit rounds to zero grosze, so the cross division fails, exactly when the target's mid is below 0.005 in magnitude |
| Conversion.ConvertRoundsToCents | app-1.py:72-84 | every amount returned for two different currencies has exactly two fractional digits |
| Conversion.ConvertUsesOnlyRequested | app-1.py:68-84 | the result depends on the rate source only through the codes requested: fetchers that agree on them give the same run |
| Conversion.ConvertUsdRequestsU | app-1.py:62-70 | USD's enum value is the string "usd", and a USD conversion requests the table for code "u" |
| Conversion.ConvertToPlnExample | app-1.py:105 | 10.0 GBP at mid 4.50 converts to exactly 45.00 zł after one request for "gbp" |
| Conversion.ConvertFailedRequestExample | app-1.py:75-76 | a failed request for the source table is raised, not turned into a value |
| Conversion.ConvertCrossExample | app-1.py:82-84 | 100 EUR at mid 4.3366 against GBP at mid 1.17 is 433.66 / 1.17 rounded half up, 370.65, after requests for "eur" then "gbp" |

## Left out

- The HTTP request to the NBP API and the `.json()` decoding. `NBPData.from_currency` (app-1.py:55-59) is the `fetch` parameter and can return any error. Its own record decoding is not part of this model.
- Floating point: a JSON number is taken to be an exact decimal, and its `str` to be the plain decimal text of that value. Python's float `repr` may write it differently (`4.5` for 4.50, exponent notation).
- Decimal context precision: products, quotients and quantize results are exact here. Python rounds them to 28 significant digits (half-even) and raises InvalidOperation when a quantized result needs more. So very long or very large values can differ.
- Signed zero, NaN and infinities of `Decimal`. A result that Python prints as `-0.00` is 0 here.
- DecimalText.Parse: accepts only an optional sign, ASCII digits and one decimal point. Python's `Decimal` also accepts exponent notation, surrounding whitespace, underscores, non-ASCII Unicode decimal digits, `NaN` and `Infinity`; these are errors here.
- DecimalText.Format: always writes plain notation. Python's `str` switches to exponent notation when the adjusted exponent is below -6 (`str(Decimal('0.0000001'))` is `1E-7`) or the exponent is positive. Reading either form back gives the same value, so no result of the model changes.
- Decimals.Decimal: the scale is a `nat`, so a positive exponent such as `Decimal('1E+3')` cannot be written; it is held as `Decimal(1000, 0)`. The identity branch of `convert` returns that value, which Python would print as `1E+3`.
- Rates.DecodeRate: record keys are strings, and the values of `no` and `effectiveDate` are the three kinds of `Value`. Other JSON values (null, booleans, lists) are not modelled.
- `main` and its printing (app-1.py:87-112). Also the dataclass-generated `__str__` and `__eq__`, and Enum machinery beyond the member values.
