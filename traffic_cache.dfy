/**
 * The single-slot cache in front of the usage request (nezha/traffic-progress.js,
 * `fetchTrafficData`). The request is asynchronous, so it is modelled in two
 * steps: the call, which either answers from the cache or starts a request
 * stamped with the clock reading `now`, and the arrival of that request's
 * response. The clock and the network are inputs.
 */
module TrafficCache {
  import opened Common
  import opened TrafficData

  /** The cached payload and the time its request was made. */
  datatype CacheEntry = CacheEntry(timestamp: int, data: seq<Cycle>)

  /** How a call to `fetchTrafficData` proceeds: the callback gets cached data, or a request goes out. */
  datatype FetchStart = CacheHit(data: seq<Cycle>) | Request(stamp: int)

  /**
   * What comes back: a failure (network error, a body that is not JSON, or a
   * missing `data` object, all of which end in the `catch`), or a parsed body
   * with its `success` flag and its `data.cycle_transfer_stats`.
   */
  datatype Response = Failed | Parsed(success: bool, stats: seq<Cycle>)

  /** The cache is used exactly when it is filled and younger than the interval. */
  predicate Fresh(cache: Option<CacheEntry>, now: int, interval: int)
  {
    cache.Some? && now - cache.value.timestamp < interval
  }

  class TrafficDataManager {
    var trafficCache: Option<CacheEntry>

    constructor ()
      ensures trafficCache == None
    {
      trafficCache := None;
    }

    /** The synchronous part of `fetchTrafficData`. */
    method FetchTrafficData(now: int, interval: int) returns (start: FetchStart)
      ensures start.CacheHit? <==> Fresh(trafficCache, now, interval)
      ensures start.CacheHit? ==> start.data == trafficCache.value.data
      ensures start.Request? ==> start.stamp == now
    {
      if trafficCache.Some? && now - trafficCache.value.timestamp < interval {
        return CacheHit(trafficCache.value.data);
      }
      return Request(now);
    }

    /**
     * The arrival of the response to a request made at `stamp`. Only a parsed
     * body with `success` set replaces the cache, wholesale, stamped with the
     * request time, and reaches the callback; anything else changes nothing.
     */
    method OnResponse(stamp: int, response: Response) returns (delivered: Option<seq<Cycle>>)
      modifies this
      ensures response.Parsed? && response.success ==>
                trafficCache == Some(CacheEntry(stamp, response.stats)) && delivered == Some(response.stats)
      ensures !(response.Parsed? && response.success) ==> trafficCache == old(trafficCache) && delivered == None
    {
      if response.Failed? || !response.success {
        return None;
      }
      var trafficData := response.stats;
      trafficCache := Some(CacheEntry(stamp, trafficData));
      delivered := Some(trafficData);
    }
  }

  /**
   * Two refreshes: the first, on an empty cache, requests and succeeds; the
   * second, `elapsed` later, requests again exactly when the interval has run
   * out. Returns the number of requests made.
   */
  method TwoRefreshes(t: int, elapsed: nat, interval: int, stats: seq<Cycle>) returns (requests: nat)
    ensures requests == (if elapsed < interval then 1 else 2)
  {
    var manager := new TrafficDataManager();
    requests := 0;
    var first := manager.FetchTrafficData(t, interval);
    if first.Request? {
      requests := requests + 1;
      var delivered := manager.OnResponse(first.stamp, Parsed(true, stats));
    }
    var second := manager.FetchTrafficData(t + elapsed, interval);
    if second.Request? {
      requests := requests + 1;
    }
  }

  /**
   * A stale response that arrives after a newer one still overwrites the slot,
   * and leaves it stamped with its own, older request time.
   */
  method LateResponseWins(t1: int, t2: int, older: seq<Cycle>, newer: seq<Cycle>) returns (cache: Option<CacheEntry>)
    requires t1 < t2
    ensures cache == Some(CacheEntry(t1, older))
  {
    var manager := new TrafficDataManager();
    var d2 := manager.OnResponse(t2, Parsed(true, newer));
    var d1 := manager.OnResponse(t1, Parsed(true, older));
    cache := manager.trafficCache;
  }
}
