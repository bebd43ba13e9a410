/**
 * Properties of the rate cache over a sequence of refreshes, each call made
 * against the state the previous one left (currency/exchange.go).
 */
module CacheProperties {
  import opened Wrappers
  import opened Exchange

  /** The state after running the refreshes in `calls`, in order, from `s`. */
  function Replay(s: CacheState, calls: seq<UpdateCall>): CacheState
    decreases |calls|
  {
    if calls == [] then s else Replay(UpdateExchangeRates(s, calls[0]).cache, calls[1..])
  }

  /** Refreshes made while the cache is still valid fetch nothing and change nothing. */
  lemma {:induction false} NoRefreshWhileValid(s: CacheState, calls: seq<UpdateCall>)
    requires forall i :: 0 <= i < |calls| ==> calls[i].now < s.validUpto
    ensures Replay(s, calls) == s
    decreases |calls|
  {
    if calls != [] {
      assert UpdateExchangeRates(s, calls[0]).cache == s;
      NoRefreshWhileValid(s, calls[1..]);
    }
  }

  /**
   * After a successful refresh finishing at `c.refreshedAt`, every refresh made
   * before an hour has passed is a no-op: the fetched rates stay, and no further
   * fetch is made.
   */
  lemma {:induction false} RefreshHoldsForAnHour(s: CacheState, c: UpdateCall, calls: seq<UpdateCall>)
    requires Expired(s, c) && FetchExchangeRates(c.raw).Success?
    requires forall i :: 0 <= i < |calls| ==> calls[i].now < c.refreshedAt + Hour
    ensures var t := Replay(s, [c] + calls);
            && t.rates == c.raw.decoded.value.rates
            && t.validUpto == c.refreshedAt + Hour
            && t.requests == s.requests + [RequestUrl(c.apiURL, c.apiKey)]
  {
    var s1 := UpdateExchangeRates(s, c).cache;
    assert ([c] + calls)[1..] == calls;
    NoRefreshWhileValid(s1, calls);
  }

  /** When every fetch fails, the rates and their validity are those the cache started with. */
  lemma {:induction false} FailedRefreshesKeepRates(s: CacheState, calls: seq<UpdateCall>)
    requires forall i :: 0 <= i < |calls| ==> FetchExchangeRates(calls[i].raw).Failure?
    ensures Replay(s, calls).rates == s.rates && Replay(s, calls).validUpto == s.validUpto
    decreases |calls|
  {
    if calls != [] {
      var s1 := UpdateExchangeRates(s, calls[0]).cache;
      assert s1.rates == s.rates && s1.validUpto == s.validUpto;
      FailedRefreshesKeepRates(s1, calls[1..]);
    }
  }

  /** Whether call `i` of a run refreshed the cache: it found it expired and its fetch succeeded. */
  predicate Refreshed(s: CacheState, calls: seq<UpdateCall>, i: int)
    requires 0 <= i < |calls|
  {
    Expired(Replay(s, calls[..i]), calls[i]) && FetchExchangeRates(calls[i].raw).Success?
  }

  /** Call `k + 1` of a run refreshes exactly when call `k` does in the run that starts after the first call. */
  lemma RefreshedShift(s: CacheState, calls: seq<UpdateCall>, k: int)
    requires 0 <= k < |calls| - 1
    ensures Refreshed(s, calls, k + 1) == Refreshed(UpdateExchangeRates(s, calls[0]).cache, calls[1..], k)
  {
    assert calls[..k + 1][1..] == calls[1..][..k];
    assert calls[..k + 1][0] == calls[0];
  }

  /**
   * The rates are never merged or edited: with no refresh in the run they and
   * their validity are those the cache started with; otherwise they are exactly
   * the map fetched by the last call that refreshed, valid for an hour from the
   * end of that call.
   */
  lemma {:induction false} RatesAreFromLastRefresh(s: CacheState, calls: seq<UpdateCall>)
    ensures var t := Replay(s, calls);
            || ((forall i :: 0 <= i < |calls| ==> !Refreshed(s, calls, i))
                && t.rates == s.rates && t.validUpto == s.validUpto)
            || exists i :: && 0 <= i < |calls|
                           && Refreshed(s, calls, i)
                           && (forall j :: i < j < |calls| ==> !Refreshed(s, calls, j))
                           && t.rates == calls[i].raw.decoded.value.rates
                           && t.validUpto == calls[i].refreshedAt + Hour
    decreases |calls|
  {
    if calls != [] {
      var s1 := UpdateExchangeRates(s, calls[0]).cache;
      var tail := calls[1..];
      var t := Replay(s1, tail);
      assert t == Replay(s, calls);
      assert calls[..0] == [];
      forall k | 0 <= k < |calls| - 1
        ensures Refreshed(s, calls, k + 1) == Refreshed(s1, tail, k)
      {
        RefreshedShift(s, calls, k);
      }
      RatesAreFromLastRefresh(s1, tail);
      if forall k :: 0 <= k < |tail| ==> !Refreshed(s1, tail, k) {
        assert forall j :: 0 < j < |calls| ==> !Refreshed(s, calls, j) by {
          forall j | 0 < j < |calls| ensures !Refreshed(s, calls, j) {
            assert Refreshed(s, calls, j) == Refreshed(s1, tail, j - 1);
          }
        }
        if !Refreshed(s, calls, 0) {
          assert s1.rates == s.rates && s1.validUpto == s.validUpto;
        }
      } else {
        var k :| && 0 <= k < |tail|
                 && Refreshed(s1, tail, k)
                 && (forall j :: k < j < |tail| ==> !Refreshed(s1, tail, j))
                 && t.rates == tail[k].raw.decoded.value.rates
                 && t.validUpto == tail[k].refreshedAt + Hour;
        assert Refreshed(s, calls, k + 1) && tail[k] == calls[k + 1];
        forall j | k + 1 < j < |calls| ensures !Refreshed(s, calls, j) {
          assert Refreshed(s, calls, j) == Refreshed(s1, tail, j - 1);
        }
      }
    }
  }

  /** Each refresh fetches at most once, and the log of fetches only grows. */
  lemma {:induction false} AtMostOneFetchPerRefresh(s: CacheState, calls: seq<UpdateCall>)
    ensures var t := Replay(s, calls);
            s.requests <= t.requests && |t.requests| <= |s.requests| + |calls|
    decreases |calls|
  {
    if calls != [] {
      var s1 := UpdateExchangeRates(s, calls[0]).cache;
      AtMostOneFetchPerRefresh(s1, calls[1..]);
    }
  }

  /**
   * With a clock that does not run backwards within a refresh, the end of the
   * validity window never moves earlier.
   */
  lemma {:induction false} ValidityNeverShrinks(s: CacheState, calls: seq<UpdateCall>)
    requires forall i :: 0 <= i < |calls| ==> calls[i].now <= calls[i].refreshedAt
    ensures Replay(s, calls).validUpto >= s.validUpto
    decreases |calls|
  {
    if calls != [] {
      var s1 := UpdateExchangeRates(s, calls[0]).cache;
      assert s1.validUpto >= s.validUpto;
      ValidityNeverShrinks(s1, calls[1..]);
    }
  }

  /** Right after initialisation, the next refresh at the same instant or later always fetches. */
  lemma InitThenUpdateFetches(initTime: int, c: UpdateCall)
    requires initTime <= c.now
    ensures UpdateExchangeRates(InitialState(initTime), c).cache.requests == [RequestUrl(c.apiURL, c.apiKey)]
  {
  }
}
