/** The rate tables of app/domains/eligibility/rate_table_service.py as an instance of the
    read-through cache.
 */
module RateTables {
  import opened Prelude
  import opened RedisModel
  import opened ReadThroughCache

  const INCOME_RATES_CACHE_KEY := "rate_table:eligibility:income"
  const ASSET_LIMITS_CACHE_KEY := "rate_table:eligibility:assets"
  const CACHE_TTL_SECONDS := 86400.0

  // `invalidate_cache` deletes both entries.
  const BOTH_KEYS := [INCOME_RATES_CACHE_KEY, ASSET_LIMITS_CACHE_KEY]

  class RateTableService<V(==)> {
    const cache: CachedSource<V>

    constructor ()
      ensures cache.Valid() && cache.log == [] && cache.ttl == 86400.0 && fresh(cache) && fresh(cache.redis)
    {
      cache := new CachedSource(CACHE_TTL_SECONDS);
    }

    method InvalidateCache(now: Time)
      requires cache.Valid() && (cache.log != [] ==> Last(cache.log).at <= now)
      modifies cache, cache.redis
      ensures cache.Valid()
      ensures cache.log == old(cache.log) + [Invalidated(["rate_table:eligibility:income",
                                                          "rate_table:eligibility:assets"], now)]
    {
      cache.Invalidate(BOTH_KEYS, now);
    }
  }

  // Rows served at event j were the table's own at some moment q, less than a day plus the
  // fill delay before; and if the table was changed since q, that change is younger than that.
  lemma {:induction false} ServedRowsAge<V>(log: Log<V>, j: nat, key: string, change: nat)
    returns (q: nat, m: nat)
    requires Legal(CACHE_TTL_SECONDS, log) && Returns(log, j, key)
    requires change < j && log[change].Changed? && log[change].key == key
    ensures q < m <= j && log[q].Queried? && log[m].Filled?
    ensures Source(log[..q], key) == Some(log[j].value)
    ensures change >= q && log[j].Hit? ==> log[j].at - log[change].at < 86400.0 + (log[m].at - log[q].at)
  {
    Staleness(CACHE_TTL_SECONDS, log, j, key);
    q, m := QueryOf(log, j), FillOf(log, j);
    if change >= q {
      TimeMonotone(CACHE_TTL_SECONDS, log, q, change);
    }
  }

  // After `invalidate_cache` with no fill of a table in flight, whatever is served of that
  // table was read after it; a fill of the other table does not matter.
  lemma {:induction false} InvalidateRefreshesBoth<V>(log: Log<V>, i: nat, j: nat, key: string)
    requires Legal(CACHE_TTL_SECONDS, log) && i < j && Returns(log, j, key)
    requires log[i].Invalidated? && log[i].keys == BOTH_KEYS
    requires key in ["rate_table:eligibility:income", "rate_table:eligibility:assets"]
    requires NoFillInFlight(log[..i + 1], key)
    ensures QueryOf(log, j) > i && Source(log[..QueryOf(log, j)], key) == Some(log[j].value)
  {
    Staleness(CACHE_TTL_SECONDS, log, j, key);
    ReturnsAfterInvalidation(CACHE_TTL_SECONDS, log, i, j, key);
  }
}
