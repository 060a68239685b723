/** The favicon cache kept in `chrome.storage.local` under `cachedIcons`: a map
    from hostname to the icon's data URL and the time it was stored, bounded
    at 100 entries by evicting the entry with the oldest timestamp. */
module IconCache {
  import opened Common
  import opened Text
  import opened Web

  /** `MAX_CACHED_ICONS`. */
  const MaxCachedIcons := 100

  datatype IconEntry = IconEntry(dataUrl: string, timestamp: int)

  type Icons = map<string, IconEntry>

  /** `key` is a cache key with the smallest timestamp. */
  ghost predicate IsOldest(cache: Icons, key: string) {
    key in cache && forall k :: k in cache ==> cache[key].timestamp <= cache[k].timestamp
  }

  /** What the eviction scan may report: nothing for an empty cache, an
      oldest key otherwise. */
  ghost predicate OldestChoice(cache: Icons, oldest: Option<string>) {
    && (oldest.None? <==> cache == map[])
    && (oldest.Some? ==> IsOldest(cache, oldest.value))
  }

  /** The `for (const key in cache)` scan: keeps the first key whose
      timestamp is strictly below every one seen before it, starting from
      `Infinity`. The order in which keys are visited is not modelled, so
      any key with the minimal timestamp may be reported. */
  method FindOldest(cache: Icons) returns (oldest: Option<string>)
    ensures oldest.None? <==> cache == map[]
    ensures oldest.Some? ==> IsOldest(cache, oldest.value)
  {
    oldest := None;
    var oldestTimestamp := 0;
    var remaining := cache.Keys;
    while remaining != {}
      invariant remaining <= cache.Keys
      invariant oldest.None? <==> remaining == cache.Keys
      invariant oldest.Some? ==>
        && oldest.value in cache
        && oldestTimestamp == cache[oldest.value].timestamp
        && forall k :: k in cache && k !in remaining ==> oldestTimestamp <= cache[k].timestamp
      decreases remaining
    {
      var key :| key in remaining;
      if oldest.None? || cache[key].timestamp < oldestTimestamp {
        oldestTimestamp := cache[key].timestamp;
        oldest := Some(key);
      }
      remaining := remaining - {key};
    }
  }

  /** The cache after one insertion: when it is full, the reported oldest key
      is deleted first, unless it is the empty string (`if (oldestKey)`);
      then `hostname` gets the new entry. */
  function WithIcon(cache: Icons, oldest: Option<string>, hostname: string, entry: IconEntry): (r: Icons)
    ensures hostname in r && r[hostname] == entry
    ensures forall k :: k in r ==> k == hostname || k in cache
  {
    var kept := if |cache| >= MaxCachedIcons && oldest.Some? && oldest.value != "" then cache - {oldest.value} else cache;
    kept[hostname := entry]
  }

  /** The cache bound: a cache of at most 100 non-empty hostnames stays
      within 100 entries after an insertion. Below the bound nothing is lost;
      at the bound exactly the oldest key goes (unless it is the hostname
      being written) and every other entry survives. */
  lemma CacheStaysBounded(cache: Icons, oldest: Option<string>, hostname: string, entry: IconEntry)
    requires |cache| <= MaxCachedIcons && "" !in cache && hostname != ""
    requires |cache| >= MaxCachedIcons ==> OldestChoice(cache, oldest)
    ensures var r := WithIcon(cache, oldest, hostname, entry);
      && |r| <= MaxCachedIcons && "" !in r
      && (|cache| < MaxCachedIcons ==> forall k :: k in cache && k != hostname ==> k in r && r[k] == cache[k])
      && (|cache| >= MaxCachedIcons ==>
            && (oldest.value != hostname ==> oldest.value !in r)
            && forall k :: k in cache && k != hostname && k != oldest.value ==> k in r && r[k] == cache[k])
  {
    var r := WithIcon(cache, oldest, hostname, entry);
    if |cache| >= MaxCachedIcons {
      var kept := cache - {oldest.value};
      assert kept.Keys == cache.Keys - {oldest.value};
      assert |kept.Keys| == |cache.Keys| - 1;
      assert r.Keys == kept.Keys + {hostname};
      assert |r.Keys| <= |kept.Keys| + 1;
    } else {
      assert r.Keys == cache.Keys + {hostname};
      assert |r.Keys| <= |cache.Keys| + 1;
    }
  }

  /** The stored icon cache as `cacheIcon` reads, changes and writes it. */
  class Cache {
    var entries: Icons

    constructor (stored: Icons)
      ensures entries == stored
    {
      entries := stored;
    }

    /** `cacheIcon(url, dataUrl)`. `now` and `retryNow` are the two
        `Date.now()` readings, `writeError` the message of a failed
        `storage.local.set`, `retryFailed` whether the write after clearing
        the cache failed as well. An unparsable url and any write error
        other than a quota error leave the stored cache as it was; a quota
        error replaces it by the single new entry. */
    method CacheIcon(parse: UrlParser, url: string, dataUrl: string, now: int,
                     writeError: Option<string>, retryNow: int, retryFailed: bool)
      modifies this
      ensures parse(url).None? ==> entries == old(entries)
      ensures parse(url).Some? && writeError.None? ==>
        exists oldest :: (|old(entries)| >= MaxCachedIcons ==> OldestChoice(old(entries), oldest))
          && entries == WithIcon(old(entries), oldest, parse(url).value.hostname, IconEntry(dataUrl, now))
      ensures parse(url).Some? && writeError.Some? && !Contains(writeError.value, "QUOTA") ==> entries == old(entries)
      ensures parse(url).Some? && writeError.Some? && Contains(writeError.value, "QUOTA") ==>
        entries == if retryFailed then map[] else map[parse(url).value.hostname := IconEntry(dataUrl, retryNow)]
    {
      var parsed := parse(url);
      if parsed.None? {
        return;
      }
      var hostname := parsed.value.hostname;
      var cache := entries;
      var oldestKey: Option<string> := None;
      if |cache| >= MaxCachedIcons {
        oldestKey := FindOldest(cache);
        if oldestKey.Some? && oldestKey.value != "" {
          cache := cache - {oldestKey.value};
        }
      }
      cache := cache[hostname := IconEntry(dataUrl, now)];
      if writeError.None? {
        entries := cache;
        assert entries == WithIcon(old(entries), oldestKey, hostname, IconEntry(dataUrl, now));
      } else if Contains(writeError.value, "QUOTA") {
        entries := if retryFailed then map[] else map[hostname := IconEntry(dataUrl, retryNow)];
      }
    }
  }
}
