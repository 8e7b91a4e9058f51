/** The two caches the hover and definition providers share
    (src/utils/intlayerCache.ts): a single-slot configuration cache checked
    again after two seconds, and a dictionary-file cache keyed by path and
    invalidated by the file's modification time. Clock and file system are
    parameters. */
module IntlayerCache {
  import opened Wrappers

  const ConfigTtl: int := 2000

  // ---- Configuration: one slot ----

  datatype ConfigSlot<C> = ConfigSlot(path: string, data: C, lastCheck: int)

  datatype ConfigOutcome<C> = ConfigOutcome(result: Result<C>, slot: Option<ConfigSlot<C>>)

  predicate ConfigHit<C>(slot: Option<ConfigSlot<C>>, projectDir: string, now: int) {
    slot.Some? && slot.value.path == projectDir && now - slot.value.lastCheck < ConfigTtl
  }

  /** `getCachedConfig(projectDir)`; `load` is what loading the project's
      configuration gives, a failure when it throws. */
  function CachedConfig<C>(slot: Option<ConfigSlot<C>>, projectDir: string, now: int, load: Result<C>): (r: ConfigOutcome<C>)
    ensures ConfigHit(slot, projectDir, now) ==> r == ConfigOutcome(Success(slot.value.data), slot)
    ensures !ConfigHit(slot, projectDir, now) ==> r.result == load
    ensures !ConfigHit(slot, projectDir, now) && load.Success? ==>
              r.slot == Some(ConfigSlot(projectDir, load.value, now))
    ensures load.Failure? ==> r.slot == slot
  {
    if ConfigHit(slot, projectDir, now) then ConfigOutcome(Success(slot.value.data), slot)
    else match load
      case Failure(e) => ConfigOutcome(Failure(e), slot)
      case Success(c) => ConfigOutcome(Success(c), Some(ConfigSlot(projectDir, c, now)))
  }

  /** A configuration loaded for another project evicts the first: asking
      for the first again loads it again, however soon. */
  lemma {:induction false} OtherProjectEvicts<C>(slot: Option<ConfigSlot<C>>, a: string, b: string, now: int, later: int,
                                                 loadB: C, loadA: Result<C>)
    requires a != b && !ConfigHit(slot, b, now)
    ensures var s := CachedConfig(slot, b, now, Success(loadB)).slot;
            CachedConfig(s, a, later, loadA).result == loadA
  {
    var s := CachedConfig(slot, b, now, Success(loadB)).slot;
    assert s == Some(ConfigSlot(b, loadB, now));
    assert !ConfigHit(s, a, later);
  }

  // ---- Dictionary files: keyed by path, checked by modification time ----

  datatype Entry<D> = Entry(mtime: int, data: D)

  /** What the file system says about a path: whether it exists, its
      modification time when `stat` succeeds, and its parsed contents when
      reading and parsing succeed. */
  datatype FileProbe<D> = FileProbe(present: bool, mtime: Option<int>, parsed: Option<D>)

  datatype DictionaryOutcome<D> = DictionaryOutcome(data: Option<D>, cache: map<string, Entry<D>>)

  /** `getCachedDictionary(filePath)`. */
  function CachedDictionary<D>(cache: map<string, Entry<D>>, path: string, file: FileProbe<D>): (r: DictionaryOutcome<D>)
    ensures !file.present || file.mtime.None? ==> r == DictionaryOutcome(None, cache)
    ensures file.present && file.mtime.Some? && path in cache && cache[path].mtime == file.mtime.value ==>
              r == DictionaryOutcome(Some(cache[path].data), cache)
    ensures file.present && file.mtime.Some? && !(path in cache && cache[path].mtime == file.mtime.value) ==>
              r.data == file.parsed
              && (file.parsed.Some? ==> r.cache == cache[path := Entry(file.mtime.value, file.parsed.value)])
    ensures r.data.None? ==> r.cache == cache
    ensures r.cache != cache ==>
              file.present && file.mtime.Some? && file.parsed.Some? && r.data == file.parsed
              && r.cache == cache[path := Entry(file.mtime.value, file.parsed.value)]
    ensures forall q :: q != path ==> (q in r.cache <==> q in cache) && (q in cache ==> r.cache[q] == cache[q])
  {
    if !file.present || file.mtime.None? then DictionaryOutcome(None, cache)
    else if path in cache && cache[path].mtime == file.mtime.value then DictionaryOutcome(Some(cache[path].data), cache)
    else match file.parsed
      case None => DictionaryOutcome(None, cache)
      case Some(d) => DictionaryOutcome(Some(d), cache[path := Entry(file.mtime.value, d)])
  }

  /** A file read once is answered from the cache while its modification
      time stays the same, even if its contents have changed. */
  lemma {:induction false} SameMtimeHits<D>(cache: map<string, Entry<D>>, path: string, mtime: int, d: D, later: FileProbe<D>)
    requires path !in cache && later.present && later.mtime == Some(mtime)
    ensures var c := CachedDictionary(cache, path, FileProbe(true, Some(mtime), Some(d))).cache;
            CachedDictionary(c, path, later) == DictionaryOutcome(Some(d), c)
  {
    var c := CachedDictionary(cache, path, FileProbe(true, Some(mtime), Some(d))).cache;
    assert c[path] == Entry(mtime, d);
  }

  /** A file whose modification time has changed since it was cached is
      read again: the new contents are returned and replace the entry. */
  lemma {:induction false} ChangedMtimeRereads<D>(cache: map<string, Entry<D>>, path: string, mtime: int, d: D,
                                                  mtime': int, d': D)
    requires path !in cache && mtime' != mtime
    ensures var c := CachedDictionary(cache, path, FileProbe(true, Some(mtime), Some(d))).cache;
            CachedDictionary(c, path, FileProbe(true, Some(mtime'), Some(d')))
            == DictionaryOutcome(Some(d'), c[path := Entry(mtime', d')])
  {
    var c := CachedDictionary(cache, path, FileProbe(true, Some(mtime), Some(d))).cache;
    assert c[path] == Entry(mtime, d);
  }

  /** Lookups of different paths do not disturb each other's entries. */
  lemma {:induction false} PathsIndependent<D>(cache: map<string, Entry<D>>, p: string, q: string, fp: FileProbe<D>, fq: FileProbe<D>)
    requires p != q
    ensures var c := CachedDictionary(cache, p, fp).cache;
            CachedDictionary(c, q, fq).data == CachedDictionary(cache, q, fq).data
  {
    var c := CachedDictionary(cache, p, fp).cache;
    assert (q in c <==> q in cache) && (q in cache ==> c[q] == cache[q]);
  }
}
