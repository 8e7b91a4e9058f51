/** The time-to-live usage caches of the two dictionary-file providers
    (src/providers/intlayerUnusedDecoration.ts:33-37,147-162 and
    src/providers/intlayerContentDefinitionProvider.ts:24-52): a map from
    `project:key` to the usages found at some time. The clock is a parameter,
    and so is the outcome of the scan a miss would run: `None` when it throws. */
module TtlCache {
  import opened Wrappers

  datatype Stamped<T> = Stamped(timestamp: int, data: T)

  type Cache<T> = map<string, Stamped<T>>

  /** An entry answers a lookup while it is younger than the time to live. */
  predicate Fresh<T>(c: Cache<T>, key: string, now: int, ttl: int) {
    key in c && now - c[key].timestamp < ttl
  }

  /** The outcome of a lookup: the data, if any, and the cache afterwards. */
  datatype Fetched<T> = Fetched(data: Option<T>, cache: Cache<T>)

  /** A lookup: a fresh entry is used as it is; otherwise the scan runs, and
      its result is stored with the current time, unless it failed, in which
      case nothing is stored. */
  function Fetch<T>(c: Cache<T>, key: string, now: int, ttl: int, scan: Option<T>): (r: Fetched<T>)
    ensures Fresh(c, key, now, ttl) ==> r == Fetched(Some(c[key].data), c)
    ensures !Fresh(c, key, now, ttl) ==> r.data == scan
    ensures !Fresh(c, key, now, ttl) && scan.Some? ==>
              key in r.cache && r.cache[key] == Stamped(now, scan.value)
    ensures scan.None? ==> r.cache == c
    ensures forall k :: k != key ==> (k in r.cache <==> k in c) && (k in c ==> r.cache[k] == c[k])
    ensures r.data.None? <==> !Fresh(c, key, now, ttl) && scan.None?
  {
    if Fresh(c, key, now, ttl) then Fetched(Some(c[key].data), c)
    else if scan.None? then Fetched(None, c)
    else Fetched(scan, c[key := Stamped(now, scan.value)])
  }

  /** Within the time to live of a successful scan, the same key is answered
      from the cache, with the data stored, whatever a new scan would give. */
  lemma {:induction false} HitAfterStore<T>(c: Cache<T>, key: string, now: int, later: int, ttl: int, data: T, scan: Option<T>)
    requires !Fresh(c, key, now, ttl) && now <= later < now + ttl
    ensures var c' := Fetch(c, key, now, ttl, Some(data)).cache;
            Fetch(c', key, later, ttl, scan) == Fetched(Some(data), c')
  {
    var c' := Fetch(c, key, now, ttl, Some(data)).cache;
    assert c'[key] == Stamped(now, data);
    assert Fresh(c', key, later, ttl);
  }

  /** Once the time to live has passed, the scan runs again. */
  lemma {:induction false} MissAfterExpiry<T>(c: Cache<T>, key: string, now: int, ttl: int, scan: Option<T>)
    requires key in c && now >= c[key].timestamp + ttl
    ensures Fetch(c, key, now, ttl, scan).data == scan
  {
    assert !Fresh(c, key, now, ttl);
  }
}
