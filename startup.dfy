/**
 * Start-up (currency/main.go): reading the two required environment variables,
 * then creating the rate cache and refreshing it once before serving.
 */
module Startup {
  import opened Wrappers
  import opened Exchange

  const UrlKey: string := "FX_API_URL"
  const TokenKey: string := "FX_API_TOKEN"

  /** The variables start-up requires, in the order it checks them. */
  const RequiredKeys: seq<string> := [UrlKey, TokenKey]

  /** os.Getenv: the value of a variable, or the empty string when it is unset. */
  function Getenv(environ: map<string, string>, key: string): string
  {
    if key in environ then environ[key] else ""
  }

  /** Indexing a Go map of strings: the empty string for a missing key, and for any key of a nil map. */
  function Index(env: Option<map<string, string>>, key: string): string
  {
    if env.Some? && key in env.value then env.value[key] else ""
  }

  function NotFound(key: string): string
  {
    "environment variable " + key + " not found"
  }

  /**
   * Reads the required variables in order. The first one that is unset or empty
   * stops the reading with an error naming it, and no map is returned; otherwise
   * the map holds exactly the required variables and their values.
   */
  method GetEnv(environ: map<string, string>) returns (env: Option<map<string, string>>, err: Option<string>)
    ensures env.Some? <==> err.None?
    ensures env.Some? <==> forall k :: k in RequiredKeys ==> Getenv(environ, k) != ""
    ensures env.Some? ==> env.value.Keys == set k | k in RequiredKeys
    ensures env.Some? ==> forall k :: k in env.value ==> env.value[k] == Getenv(environ, k)
    ensures err.Some? ==>
              exists i :: 0 <= i < |RequiredKeys|
                          && Getenv(environ, RequiredKeys[i]) == ""
                          && (forall j :: 0 <= j < i ==> Getenv(environ, RequiredKeys[j]) != "")
                          && err.value == NotFound(RequiredKeys[i])
    ensures Getenv(environ, UrlKey) == "" ==> err == Some(NotFound(UrlKey))
    ensures Getenv(environ, UrlKey) != "" && Getenv(environ, TokenKey) == "" ==> err == Some(NotFound(TokenKey))
  {
    var result: map<string, string> := map[];
    var keys := RequiredKeys;
    for i := 0 to |keys|
      invariant result.Keys == set k | k in keys[..i]
      invariant forall k :: k in result ==> result[k] == Getenv(environ, k)
      invariant forall j :: 0 <= j < i ==> Getenv(environ, keys[j]) != ""
    {
      var value := Getenv(environ, keys[i]);
      if value == "" {
        assert i > 0 ==> Getenv(environ, keys[0]) != "";
        return None, Some(NotFound(keys[i]));
      }
      result := result[keys[i] := value];
      assert keys[..i + 1] == keys[..i] + [keys[i]];
    }
    assert keys[..|keys|] == keys;
    return Some(result), None;
  }

  /**
   * The boot sequence: read the environment, create the cache, refresh it once.
   * A failure of either step is logged and start-up goes on: a failed read
   * leaves a nil map, so the refresh uses empty strings for the URL and key.
   * The cache is created at `initTime`; the refresh checks the clock at
   * `checkTime`, gets `raw` from the provider and finishes at `refreshedAt`.
   */
  method Boot(environ: map<string, string>, initTime: int, checkTime: int, raw: RawResponse, refreshedAt: int)
    returns (cache: ExchangeRateCache, envErr: Option<string>, updateErr: Option<string>)
    requires initTime <= checkTime
    ensures fresh(cache)
    ensures var url, key := Getenv(environ, UrlKey), Getenv(environ, TokenKey);
            var call := if url != "" && key != "" then UpdateCall(url, key, checkTime, raw, refreshedAt)
                        else UpdateCall("", "", checkTime, raw, refreshedAt);
            && cache.requests == [RequestUrl(call.apiURL, call.apiKey)]
            && cache.State() == UpdateExchangeRates(InitialState(initTime), call).cache
            && updateErr == UpdateExchangeRates(InitialState(initTime), call).err
            && (envErr.None? <==> url != "" && key != "")
  {
    var env;
    env, envErr := GetEnv(environ);
    cache := new ExchangeRateCache.Init(initTime);
    updateErr := cache.Update(Index(env, UrlKey), Index(env, TokenKey), checkTime, raw, refreshedAt);
  }
}
