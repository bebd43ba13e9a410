/**
 * The exchange-rate provider and the in-memory rate cache with its one-hour
 * validity window (currency/exchange.go).
 *
 * Instants are integer nanoseconds, the unit of Go's time.Duration. The network
 * is not modelled: what the provider answered to the GET request is a parameter
 * (a RawResponse), and so are the two clock readings the refresh takes.
 */
module Exchange {
  import opened Wrappers

  /** time.Hour, in nanoseconds. */
  const Hour: int := 3_600_000_000_000

  /** http.StatusOK. */
  const StatusOK: int := 200

  /** The query parameter that carries the API key. */
  const ApiQuery: string := "?api="

  /** The error the cache refresh reports, whatever the fetch failed on. */
  const FetchFailedMessage: string := "failed to fetch exchange rates"

  type Rates = map<string, real>

  /** The provider's JSON body once decoded; `rates` is None when the body had no map (Go's nil map). */
  datatype ExchangeRateResponse = ExchangeRateResponse(base: string, date: string, rates: Option<Rates>, error: string)

  /**
   * What one GET to the provider produced: whether the request went through,
   * the status code, whether the body could be read, and the decoded body
   * (None when the body is not valid JSON of the expected shape).
   */
  datatype RawResponse = RawResponse(transportOk: bool, statusCode: int, bodyReadOk: bool, decoded: Option<ExchangeRateResponse>)

  /** Why a fetch failed, one kind per early return of the fetch. */
  datatype FetchError =
    | TransportFailed
    | NonOkStatus(statusCode: int)
    | BodyReadFailed
    | DecodeFailed
    | ApiError(message: string)

  /** The URL the fetch requests: the base URL with the key as the `api` query parameter. */
  function RequestUrl(apiURL: string, apiKey: string): (url: string)
    ensures |url| == |apiURL| + |ApiQuery| + |apiKey|
    ensures url[..|apiURL|] == apiURL && url[|apiURL| + |ApiQuery|..] == apiKey
    ensures url[|apiURL|..|apiURL| + |ApiQuery|] == ApiQuery
  {
    apiURL + ApiQuery + apiKey
  }

  /** The five checks of a fetch, in the order the code makes them. */
  function Checks(raw: RawResponse): (c: seq<bool>)
    ensures |c| == 5
  {
    [ raw.transportOk,
      raw.statusCode == StatusOK,
      raw.bodyReadOk,
      raw.decoded.Some?,
      raw.decoded.Some? && raw.decoded.value.error == "" ]
  }

  /** The position in Checks of the check whose failure gives this error. */
  function CheckIndex(e: FetchError): (i: nat)
    ensures i < 5
  {
    match e
    case TransportFailed => 0
    case NonOkStatus(_) => 1
    case BodyReadFailed => 2
    case DecodeFailed => 3
    case ApiError(_) => 4
  }

  /**
   * The fetch's ladder of early returns: a transport error, then a status other
   * than 200, then a body that cannot be read, then a body that does not decode,
   * then a non-empty `error` field; otherwise the decoded body, unchanged.
   */
  function FetchExchangeRates(raw: RawResponse): (r: Result<ExchangeRateResponse, FetchError>)
    ensures r.Success? <==> false !in Checks(raw)
    ensures r.Success? ==> raw.decoded.Some? && r.value == raw.decoded.value
    ensures r.Failure? ==> !Checks(raw)[CheckIndex(r.error)]
    ensures r.Failure? ==> forall i :: 0 <= i < CheckIndex(r.error) ==> Checks(raw)[i]
    ensures r.Failure? && r.error.NonOkStatus? ==> r.error.statusCode == raw.statusCode
    ensures r.Failure? && r.error.ApiError? ==> raw.decoded.Some? && r.error.message == raw.decoded.value.error
  {
    if !raw.transportOk then Failure(TransportFailed)
    else if raw.statusCode != StatusOK then Failure(NonOkStatus(raw.statusCode))
    else if !raw.bodyReadOk then Failure(BodyReadFailed)
    else if raw.decoded.None? then Failure(DecodeFailed)
    else if raw.decoded.value.error != "" then Failure(ApiError(raw.decoded.value.error))
    else Success(raw.decoded.value)
  }

  /**
   * The cache's state as a value: the rates (None while nothing was fetched, or
   * after a fetch whose body held no map), the instant up to which they are
   * valid, and the URLs of every fetch the cache has made, oldest first.
   */
  datatype CacheState = CacheState(rates: Option<Rates>, validUpto: int, requests: seq<string>)

  /** The state initialisation puts the cache in: no rates, and already expired at `now`. */
  function InitialState(now: int): CacheState
  {
    CacheState(None, now, [])
  }

  /** One call of the refresh, with everything the outside world decides. */
  datatype UpdateCall = UpdateCall(
    apiURL: string,
    apiKey: string,
    now: int,             // the clock when the validity is checked
    raw: RawResponse,     // what the provider answers, if it is asked
    refreshedAt: int)     // the clock after a successful fetch

  /** The new state and the error a refresh returns (None for Go's nil error). */
  datatype UpdateResult = UpdateResult(cache: CacheState, err: Option<string>)

  /** Whether a refresh at this state and call finds the cache expired. */
  predicate Expired(s: CacheState, c: UpdateCall)
  {
    s.validUpto <= c.now
  }

  /**
   * One refresh: a cache still valid at `now` is left alone; an expired one
   * fetches once, and either swaps in the whole fetched map, valid for an hour
   * from `refreshedAt`, or keeps everything and reports the failure.
   */
  function UpdateExchangeRates(s: CacheState, c: UpdateCall): (r: UpdateResult)
    ensures !Expired(s, c) ==> r == UpdateResult(s, None)
    ensures Expired(s, c) ==> r.cache.requests == s.requests + [RequestUrl(c.apiURL, c.apiKey)]
    ensures r.err.None? <==> !Expired(s, c) || FetchExchangeRates(c.raw).Success?
    ensures r.err.Some? ==> r.err.value == FetchFailedMessage && r.cache.rates == s.rates && r.cache.validUpto == s.validUpto
    ensures Expired(s, c) && FetchExchangeRates(c.raw).Success? ==>
              r.cache.rates == c.raw.decoded.value.rates && r.cache.validUpto == c.refreshedAt + Hour
  {
    if Expired(s, c) then
      var fetched := s.(requests := s.requests + [RequestUrl(c.apiURL, c.apiKey)]);
      match FetchExchangeRates(c.raw)
      case Failure(_) => UpdateResult(fetched, Some(FetchFailedMessage))
      case Success(response) =>
        UpdateResult(fetched.(rates := response.rates, validUpto := c.refreshedAt + Hour), None)
    else
      UpdateResult(s, None)
  }

  /** The process-wide rate cache. */
  class ExchangeRateCache {
    var rates: Option<Rates>
    var validUpto: int
    /** The URLs of the fetches this cache has made, oldest first. */
    ghost var requests: seq<string>

    ghost function State(): CacheState
      reads this
    {
      CacheState(rates, validUpto, requests)
    }

    /** Puts the cache in the empty, already-expired state. */
    constructor Init(now: int)
      ensures State() == InitialState(now)
      ensures rates == None && validUpto == now && requests == []
    {
      rates := None;
      validUpto := now;
      requests := [];
    }

    /**
     * Refreshes the rates if they are no longer valid at `now`; `raw` is what the
     * provider answers to RequestUrl(apiURL, apiKey) and `refreshedAt` the clock
     * once it has.
     */
    method Update(apiURL: string, apiKey: string, now: int, raw: RawResponse, refreshedAt: int)
      returns (err: Option<string>)
      modifies this
      ensures var r := UpdateExchangeRates(old(State()), UpdateCall(apiURL, apiKey, now, raw, refreshedAt));
              State() == r.cache && err == r.err
      ensures old(validUpto) > now ==> unchanged(this) && err == None
    {
      if validUpto <= now {
        requests := requests + [RequestUrl(apiURL, apiKey)];
        var response := FetchExchangeRates(raw);
        if response.Failure? {
          return Some(FetchFailedMessage);
        }
        rates := response.value.rates;
        validUpto := refreshedAt + Hour;
        return None;
      }
      return None;
    }
  }
}
