/**
 * The `/convert` handler (currency/handlers.go): a ladder of early returns over
 * the cached rates, then one conversion. Amounts and rates are reals.
 */
module Handlers {
  import opened Wrappers
  import opened Exchange

  const InvalidParameters: string := "Invalid request parameters"
  const InvalidOriginal: string := "Invalid original currency"
  const InvalidTarget: string := "Invalid target currency"
  const SameCurrency: string := "From and target currencies must be different"

  /** The query parameters `value`, `from` and `to`. */
  datatype ConvertCurrencyRequest = ConvertCurrencyRequest(value: real, from: string, to: string)

  /** The JSON body of a successful conversion. */
  datatype ConversionResponse = ConversionResponse(value: real, from: string, to: string)

  /** The outcome of binding the query string; how binding decides is not modelled. */
  datatype BindResult = BindFailed | Bound(request: ConvertCurrencyRequest)

  /** What the handler writes: a 400 with a message, or a 200 with the conversion. */
  datatype HttpResponse = BadRequest(message: string) | Converted(body: ConversionResponse)
  {
    function StatusCode(): int
    {
      if BadRequest? then 400 else 200
    }
  }

  /** A lookup in the cached rates; a nil map holds no key. */
  function Lookup(rates: Option<Rates>, code: string): (r: Option<real>)
    ensures r.Some? <==> rates.Some? && code in rates.value
    ensures r.Some? ==> r.value == rates.value[code]
  {
    if rates.Some? && code in rates.value then Some(rates.value[code]) else None
  }

  /**
   * The original rate is not zero whenever the handler divides by it: when the
   * request binds, both codes are known and their rates differ.
   */
  predicate DivisionDefined(bind: BindResult, rates: Option<Rates>)
  {
    && bind.Bound?
    && Lookup(rates, bind.request.from).Some?
    && Lookup(rates, bind.request.to).Some?
    && Lookup(rates, bind.request.from) != Lookup(rates, bind.request.to)
    ==> Lookup(rates, bind.request.from).value != 0.0
  }

  /**
   * The handler's decision: a failed binding, then an unknown `from`, then an
   * unknown `to`, then numerically equal rates each give a 400; otherwise the
   * amount converted by the ratio of the two rates, with the codes echoed.
   */
  function GetConvertedCurrency(bind: BindResult, rates: Option<Rates>): (r: HttpResponse)
    requires DivisionDefined(bind, rates)
    ensures r.StatusCode() == 200 <==>
              && bind.Bound?
              && Lookup(rates, bind.request.from).Some?
              && Lookup(rates, bind.request.to).Some?
              && Lookup(rates, bind.request.from) != Lookup(rates, bind.request.to)
    ensures bind.BindFailed? ==> r == BadRequest(InvalidParameters)
    ensures bind.Bound? && Lookup(rates, bind.request.from).None? ==> r == BadRequest(InvalidOriginal)
    ensures bind.Bound? && Lookup(rates, bind.request.from).Some? && Lookup(rates, bind.request.to).None? ==>
              r == BadRequest(InvalidTarget)
    ensures bind.Bound? && Lookup(rates, bind.request.from).Some? && Lookup(rates, bind.request.from) == Lookup(rates, bind.request.to) ==>
              r == BadRequest(SameCurrency)
    ensures r.Converted? ==>
              && r.body.from == bind.request.from
              && r.body.to == bind.request.to
              // the amount is worth the same in the base currency before and after
              && r.body.value * Lookup(rates, bind.request.from).value
                 == bind.request.value * Lookup(rates, bind.request.to).value
  {
    match bind
    case BindFailed => BadRequest(InvalidParameters)
    case Bound(req) =>
      match Lookup(rates, req.from)
      case None => BadRequest(InvalidOriginal)
      case Some(originalRate) =>
        match Lookup(rates, req.to)
        case None => BadRequest(InvalidTarget)
        case Some(targetRate) =>
          if originalRate == targetRate then BadRequest(SameCurrency)
          else Converted(ConversionResponse((targetRate / originalRate) * req.value, req.from, req.to))
  }

  /** The handler as the server runs it: it reads the cache and changes nothing, not even by refreshing it. */
  method HandleConvert(cache: ExchangeRateCache, bind: BindResult) returns (response: HttpResponse)
    requires DivisionDefined(bind, cache.rates)
    ensures response == GetConvertedCurrency(bind, cache.rates)
  {
    response := GetConvertedCurrency(bind, cache.rates);
  }

  /** A code converted to itself is refused whenever it is known. */
  lemma SameCodeIsRefused(rates: Option<Rates>, value: real, code: string)
    ensures GetConvertedCurrency(Bound(ConvertCurrencyRequest(value, code, code)), rates)
            == if Lookup(rates, code).Some? then BadRequest(SameCurrency) else BadRequest(InvalidOriginal)
  {
  }

  /** Converting the result back to the original currency gives the original amount. */
  lemma ConvertBack(rates: Option<Rates>, req: ConvertCurrencyRequest)
    requires DivisionDefined(Bound(req), rates)
    requires GetConvertedCurrency(Bound(req), rates).Converted?
    requires Lookup(rates, req.to) != Some(0.0)
    ensures var there := GetConvertedCurrency(Bound(req), rates).body;
            GetConvertedCurrency(Bound(ConvertCurrencyRequest(there.value, req.to, req.from)), rates)
            == Converted(ConversionResponse(req.value, req.to, req.from))
  {
  }

  /**
   * Converting through an intermediate currency gives the same amount as
   * converting directly, whenever all three conversions succeed.
   */
  lemma ConvertThrough(rates: Option<Rates>, value: real, a: string, b: string, c: string)
    requires DivisionDefined(Bound(ConvertCurrencyRequest(value, a, b)), rates)
    requires GetConvertedCurrency(Bound(ConvertCurrencyRequest(value, a, b)), rates).Converted?
    requires var v := GetConvertedCurrency(Bound(ConvertCurrencyRequest(value, a, b)), rates).body.value;
             && DivisionDefined(Bound(ConvertCurrencyRequest(v, b, c)), rates)
             && GetConvertedCurrency(Bound(ConvertCurrencyRequest(v, b, c)), rates).Converted?
    requires DivisionDefined(Bound(ConvertCurrencyRequest(value, a, c)), rates)
    requires GetConvertedCurrency(Bound(ConvertCurrencyRequest(value, a, c)), rates).Converted?
    ensures var v := GetConvertedCurrency(Bound(ConvertCurrencyRequest(value, a, b)), rates).body.value;
            GetConvertedCurrency(Bound(ConvertCurrencyRequest(v, b, c)), rates).body.value
            == GetConvertedCurrency(Bound(ConvertCurrencyRequest(value, a, c)), rates).body.value
  {
  }

  /**
   * Worked cases: USD at 1.0 and AUD at 1.5; EUR sharing USD's rate; an unknown
   * code; and zero rates the handler never divides by.
   */
  lemma ConversionExamples()
    ensures var rates := Some(map["USD" := 1.0, "AUD" := 1.5, "EUR" := 1.0]);
            && GetConvertedCurrency(Bound(ConvertCurrencyRequest(50.0, "USD", "AUD")), rates)
               == Converted(ConversionResponse(75.0, "USD", "AUD"))
            && GetConvertedCurrency(Bound(ConvertCurrencyRequest(50.0, "AUD", "USD")), rates)
               == Converted(ConversionResponse(100.0 / 3.0, "AUD", "USD"))
            && GetConvertedCurrency(Bound(ConvertCurrencyRequest(10.0, "USD", "EUR")), rates)
               == BadRequest(SameCurrency)
            && GetConvertedCurrency(Bound(ConvertCurrencyRequest(10.0, "USD", "XYZ")), rates)
               == BadRequest(InvalidTarget)
            && GetConvertedCurrency(Bound(ConvertCurrencyRequest(10.0, "USD", "AUD")), None)
               == BadRequest(InvalidOriginal)
            && GetConvertedCurrency(Bound(ConvertCurrencyRequest(10.0, "USD", "AUD")), Some(map["USD" := 1.0, "AUD" := 0.0]))
               == Converted(ConversionResponse(0.0, "USD", "AUD"))
            && GetConvertedCurrency(Bound(ConvertCurrencyRequest(10.0, "USD", "USD")), Some(map["USD" := 0.0]))
               == BadRequest(SameCurrency)
            && GetConvertedCurrency(Bound(ConvertCurrencyRequest(10.0, "USD", "XYZ")), Some(map["USD" := 0.0]))
               == BadRequest(InvalidTarget)
  {
  }
}
