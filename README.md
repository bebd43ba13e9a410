# Currency service: rate cache and conversion, in Dafny

A model of the core of the MicroShop currency service: the in-memory
exchange-rate cache with its one-hour validity window, the fetch from the rate
provider that fills it, the `/convert` handler that reads it, and the start-up
sequence that reads the environment and fills the cache once.

- `wrappers.dfy` — `Option` (Go's nil map) and `Result` (Go's value-or-error pairs).
- `exchange.dfy` — module `Exchange`: the fetch's ladder of early returns over an
  abstract response (`FetchExchangeRates`), the cache state as a value
  (`CacheState`, `InitialState`, `UpdateExchangeRates`) and the cache object
  (`ExchangeRateCache`, whose fields the refresh updates in place). A ghost log
  of requested URLs stands for the number of fetches.
- `cache_properties.dfy` — module `CacheProperties`: what a sequence of refreshes
  does (`Replay`) and the lemmas about it.
- `handlers.dfy` — module `Handlers`: the `/convert` decision ladder as a pure
  function, and the handler as a method that only reads the cache.
- `startup.dfy` — module `Startup`: `GetEnv` as a loop over the required keys,
  and the boot order (read environment, create cache, refresh once).

Instants are integers counting nanoseconds (the unit of Go's `time.Duration`),
so one hour is 3 600 000 000 000. The clock, the provider's answer and the
query binding are parameters. The refresh reads the clock twice, once to decide
whether the cache has expired (`now`) and once after the fetch to set the new
expiry (`refreshedAt`), as the code does.

The model follows the code as written, including these behaviours:

- Nothing refreshes the cache after start-up. The only refresh is at
  currency/main.go:57, and the handler at currency/handlers.go:27-59 only reads
  the cache, so once an hour has passed the service keeps serving the start-up
  rates.
- A failed environment read or a failed first fetch is logged through a fatal
  log event that is never sent (currency/main.go:44, 59). The model lets boot go
  on in both cases. After a failed read the map is nil, so the refresh requests
  `?api=` with an empty URL and key.
- A provider answer with status 200, a readable body, valid JSON and no error
  message is accepted even if it holds no `rates` map. The cache then holds a
  nil map, and every request that binds is refused as an invalid original
  currency.
- "Same currency" is decided by comparing the two rates, not the two codes, so
  two distinct currencies with the same rate are refused.

## Model

| member | source | states |
|---|---|---|
| Exchange.RequestUrl | currency/exchange.go:50 | the request URL is the base URL, then `?api=`, then the API key |
| Exchange.FetchExchangeRates | currency/exchange.go:49-77 | success exactly when no check fails; otherwise the error names the first failing check in the order transport, status 200, body read, JSON decode, empty `error` field; the status and the provider's message are carried; on success the decoded body is returned unchanged |
| Exchange.UpdateExchangeRates | currency/exchange.go:31-44 | a cache valid after `now` is returned unchanged with no error and no fetch; an expired one (`validUpto <= now`, equality included) makes exactly one request to the provider's URL; a successful fetch replaces the rates by the fetched map and sets validity to refresh time plus one hour; a failed one keeps rates and validity and returns "failed to fetch exchange rates" |
| Exchange.ExchangeRateCache.Init | currency/exchange.go:25-29 | the new cache has no rates, is valid up to the current instant, and has made no fetch |
| Exchange.ExchangeRateCache.Update | currency/exchange.go:31-44 | the cache's fields and the returned error are those of the refresh function; a still-valid cache is left untouched |
| CacheProperties.NoRefreshWhileValid | currency/exchange.go:32-43 | any run of refreshes made before the validity ends leaves the state, the fetch log included, unchanged |
| CacheProperties.RefreshHoldsForAnHour | currency/exchange.go:32-39 | after a successful refresh finishing at t, refreshes made before t plus one hour make no fetch and keep the fetched rates |
| CacheProperties.FailedRefreshesKeepRates | currency/exchange.go:34-37 | when every fetch fails, the rates and their validity stay those the cache started with |
| CacheProperties.RatesAreFromLastRefresh | currency/exchange.go:32-39 | with no call that found the cache expired and fetched successfully, the rates and validity are the initial ones; otherwise the rates are exactly the map of the last such call, never merged, valid for an hour from that call's end |
| CacheProperties.AtMostOneFetchPerRefresh | currency/exchange.go:32-34 | each refresh adds at most one request, and earlier requests stay in the log |
| CacheProperties.ValidityNeverShrinks | currency/exchange.go:32-39 | with a clock that does not run back within a refresh, the end of validity never moves earlier |
| CacheProperties.InitThenUpdateFetches | currency/exchange.go:25-34 | right after initialisation, a refresh at the same instant or later makes exactly one fetch |
| Handlers.GetConvertedCurrency | currency/handlers.go:27-59 | status 200 exactly when binding succeeded, both codes are known and their rates differ; otherwise the 400 message of the first failing check in the order binding, original, target, equal rates; on success the codes are echoed and the amount is worth the same in the base currency before and after |
| Handlers.HandleConvert | currency/handlers.go:27-59 | the handler's response is the decision over the cache's current rates, and it changes nothing in the cache |
| Handlers.SameCodeIsRefused | currency/handlers.go:33-46 | converting a code to itself gives "From and target currencies must be different" when the code is known, "Invalid original currency" otherwise |
| Handlers.ConvertBack | currency/handlers.go:43-47 | when the target rate is not zero, converting the converted amount back gives the original amount |
| Handlers.ConvertThrough | currency/handlers.go:43-47 | converting through a third currency gives the same amount as converting directly |
| Handlers.ConversionExamples | currency/handlers.go:33-58 | 50 USD is 75 AUD at rates 1.0 and 1.5 and 50 AUD is 100/3 USD; equal rates and unknown codes are refused, a nil map refuses the original currency, and zero rates that are never divided by are accepted |
| Startup.GetEnv | currency/main.go:16-27 | success exactly when both variables are set and non-empty, with a map holding exactly those two keys bound to their values; otherwise no map and an error naming the first missing variable, `FX_API_URL` before `FX_API_TOKEN` |
| Startup.Boot | currency/main.go:39-60 | the cache is created before the single refresh, so boot makes exactly one fetch, to the configured URL and key or, when the environment read failed, to empty ones |

## Left out

- HTTP, body reading and JSON decoding: their outcomes are the fields of `RawResponse`.
- The texts of the fetch errors, which quote the transport error and the body of a non-200 answer; only the error kind, the status and the provider's message are kept.
- Float64 arithmetic: rates and amounts are reals, with no rounding, NaN or infinity.
- Handlers.GetConvertedCurrency: requires that the original rate be non-zero when the conversion is reached (the request binds, both codes are known, their rates differ), because the code then divides by it without checking, and a float64 division by zero (an infinity or NaN) has no real counterpart.
- Handlers.HandleConvert: carries the same requirement on the cached rates, for the same reason.
- Concurrency: the code has no locks, and nothing limits fetches in flight; the model is sequential.
- Whether a fatal log event ends the process: it depends on the logging library, which is not part of this model.
- Go's time arithmetic limits (saturation of `Add`, the monotonic clock reading): instants are unbounded integers, and `Boot` assumes the refresh reads the clock no earlier than initialisation did.
- Gin routing, query binding, JSON response writing, request logging and the Prometheus metrics middleware (currency/middleware/httpMetrics.go), which are plumbing over external libraries.
