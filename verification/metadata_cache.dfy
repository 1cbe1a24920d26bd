/** `MetadataCache` of utils/metadata_cache.py: a memory map in front of a
    directory of JSON entries, with validity by age, modification time and
    size, and hit/miss counters. The clock and the file's stat are inputs.
    Entries are keyed by path: the MD5 of the absolute path is taken to be
    injective. */
module MetadataCache {
  import opened Wrappers

  /** `os.stat` of the cached file: modification time and size. */
  datatype Stat = Stat(mtime: real, size: int)

  /** A cache entry as stored in JSON; a field the file lacks is `None`. */
  datatype Entry<M> = Entry(mtime: Option<real>, size: Option<int>, cachedAt: Option<real>, metadata: Option<M>)

  datatype Counters = Counters(hits: nat, misses: nat, invalidations: nat, memoryHits: nat)

  /** The memory map, the entry files on disk (`None` for a file that does not
      load as JSON) and the counters. */
  datatype Cache<M> = Cache(ttl: real, memory: map<string, Entry<M>>, disk: map<string, Option<Entry<M>>>, stats: Counters)

  function Empty<M>(ttl: real): Cache<M> {
    Cache(ttl, map[], map[], Counters(0, 0, 0, 0))
  }

  /** `_is_cache_valid(cache_data, file_path)`, with the defaults `.get`
      supplies for missing fields. */
  predicate Valid<M>(e: Entry<M>, stat: Option<Stat>, now: real, ttl: real) {
    stat.Some? &&
    !(now - e.cachedAt.GetOr(0.0) > ttl) &&
    stat.value.mtime == e.mtime.GetOr(0.0) &&
    stat.value.size == e.size.GetOr(-1)
  }

  /** The validity test spelled out: the file exists, the entry is at most
      `ttl` old, and both the stored mtime and size match. */
  lemma ValidIff<M>(e: Entry<M>, stat: Option<Stat>, now: real, ttl: real)
    requires e.mtime.Some? && e.size.Some? && e.cachedAt.Some?
    ensures Valid(e, stat, now, ttl) <==>
              stat.Some? && now - e.cachedAt.value <= ttl &&
              stat.value.mtime == e.mtime.value && stat.value.size == e.size.value
  {}

  /** An entry written without a size is never valid: the default `-1` is no
      file's size. */
  lemma NoSizeNeverValid<M>(e: Entry<M>, stat: Option<Stat>, now: real, ttl: real)
    requires e.size.None? && (stat.Some? ==> stat.value.size >= 0)
    ensures !Valid(e, stat, now, ttl)
  {}

  /** `get(file_path)`: the updated cache and the metadata returned. */
  function Get<M>(c: Cache<M>, path: string, stat: Option<Stat>, now: real): (r: (Cache<M>, Option<M>))
    ensures r.0.ttl == c.ttl
    ensures r.0.stats.hits + r.0.stats.misses == c.stats.hits + c.stats.misses + 1
    ensures r.0.stats.memoryHits - c.stats.memoryHits <= r.0.stats.hits - c.stats.hits
    ensures r.1.Some? ==> r.0.stats.hits == c.stats.hits + 1
  {
    if path in c.memory && Valid(c.memory[path], stat, now, c.ttl) then
      (c.(stats := c.stats.(hits := c.stats.hits + 1, memoryHits := c.stats.memoryHits + 1)), c.memory[path].metadata)
    else if path in c.disk && c.disk[path].Some? then
      var e := c.disk[path].value;
      if Valid(e, stat, now, c.ttl) then
        (c.(memory := c.memory[path := e], stats := c.stats.(hits := c.stats.hits + 1)), e.metadata)
      else
        (c.(disk := c.disk - {path}, stats := c.stats.(invalidations := c.stats.invalidations + 1, misses := c.stats.misses + 1)), None)
    else
      (c.(stats := c.stats.(misses := c.stats.misses + 1)), None)
  }

  /** Each `get` counts exactly one hit or one miss; a memory hit is also a
      hit; an invalid disk entry is deleted, counted, and reported as a
      miss. */
  lemma GetCounts<M>(c: Cache<M>, path: string, stat: Option<Stat>, now: real)
    ensures var r := Get(c, path, stat, now).0;
            (r.stats.hits == c.stats.hits + 1 && r.stats.misses == c.stats.misses) ||
            (r.stats.hits == c.stats.hits && r.stats.misses == c.stats.misses + 1)
    ensures var r := Get(c, path, stat, now).0;
            r.stats.memoryHits == c.stats.memoryHits + 1 ==> r.stats.hits == c.stats.hits + 1
    ensures !(path in c.memory && Valid(c.memory[path], stat, now, c.ttl)) &&
            path in c.disk && c.disk[path].Some? && !Valid(c.disk[path].value, stat, now, c.ttl) ==>
              var r := Get(c, path, stat, now);
              path !in r.0.disk && r.0.stats.invalidations == c.stats.invalidations + 1 &&
              r.0.stats.misses == c.stats.misses + 1 && r.1.None?
  {}

  /** `set(file_path, metadata)`: `stat` is `None` when `os.stat` raised,
      and `writable` says whether the entry file could be written. The memory
      entry is stored before the write, so it stays even when `set` returns
      False for a failed write. */
  function Set<M>(c: Cache<M>, path: string, m: M, stat: Option<Stat>, now: real, writable: bool): (r: (Cache<M>, bool))
    ensures r.1 <==> stat.Some? && writable
    ensures stat.None? ==> r.0 == c
    ensures r.0.stats == c.stats && r.0.ttl == c.ttl
    ensures stat.Some? ==> path in r.0.memory && r.0.memory[path].metadata == Some(m)
  {
    match stat
    case None => (c, false)
    case Some(st) =>
      var e := Entry(Some(st.mtime), Some(st.size), Some(now), Some(m));
      (c.(memory := c.memory[path := e], disk := if writable then c.disk[path := Some(e)] else c.disk), writable)
  }

  /** After `set(p, m)`, with the file unchanged and within the time to live,
      `get(p)` returns `m` from memory. */
  lemma SetThenGet<M>(c: Cache<M>, path: string, m: M, st: Stat, now: real, later: real, writable: bool)
    requires now <= later && later - now <= c.ttl
    ensures var s := Set(c, path, m, Some(st), now, writable).0;
            var g := Get(s, path, Some(st), later);
            g.1 == Some(m) && g.0.stats.memoryHits == c.stats.memoryHits + 1 && g.0.stats.hits == c.stats.hits + 1
  {}

  /** Once the file changes size or modification time, the entry no longer
      answers. */
  lemma ChangedFileMisses<M>(c: Cache<M>, path: string, m: M, st: Stat, st': Stat, now: real, later: real)
    requires st' != st
    ensures var s := Set(c, path, m, Some(st), now, true).0;
            Get(s, path, Some(st'), later).1.None?
  {}

  /** `invalidate(file_path)`: the memory entry always goes, and the result
      says whether an entry file was removed. */
  function Invalidate<M>(c: Cache<M>, path: string): (r: (Cache<M>, bool))
    ensures path !in r.0.memory && path !in r.0.disk
    ensures r.1 <==> path in c.disk
    ensures r.0.stats.invalidations == c.stats.invalidations + (if r.1 then 1 else 0)
    ensures r.0.stats.hits == c.stats.hits && r.0.stats.misses == c.stats.misses
  {
    var c1 := c.(memory := c.memory - {path});
    if path in c.disk then (c1.(disk := c.disk - {path}, stats := c.stats.(invalidations := c.stats.invalidations + 1)), true)
    else (c1, false)
  }

  /** After `invalidate(p)`, `get(p)` misses. */
  lemma InvalidateThenGet<M>(c: Cache<M>, path: string, stat: Option<Stat>, now: real)
    ensures var i := Invalidate(c, path).0;
            Get(i, path, stat, now).1.None? && Get(i, path, stat, now).0.stats.misses == c.stats.misses + 1
  {}

  /** `clear()`: every entry goes; the count is the number of entry files. */
  function Clear<M>(c: Cache<M>): (r: (Cache<M>, nat))
    ensures r.0.memory == map[] && r.0.disk == map[] && r.0.stats == c.stats
    ensures r.1 == |c.disk.Keys|
  {
    (c.(memory := map[], disk := map[]), |c.disk.Keys|)
  }

  datatype Report = Report(hits: nat, misses: nat, memoryHits: nat, invalidations: nat, totalRequests: nat, hitRate: real)

  /** `get_stats()`, before rounding. */
  function Stats<M>(c: Cache<M>): (r: Report)
    ensures r.totalRequests == r.hits + r.misses
    ensures r.totalRequests == 0 ==> r.hitRate == 0.0
    ensures 0.0 <= r.hitRate <= 100.0
  {
    var total := c.stats.hits + c.stats.misses;
    Report(c.stats.hits, c.stats.misses, c.stats.memoryHits, c.stats.invalidations, total,
           if total > 0 then (c.stats.hits as real) / (total as real) * 100.0 else 0.0)
  }

  /** The counters only ever see memory hits as hits: starting from a fresh
      cache, any run of `get`, `set` and `invalidate` keeps
      `memory_hits <= hits`. */
  predicate Sane(s: Counters) {
    s.memoryHits <= s.hits
  }

  datatype Call<M> = GetCall(path: string, stat: Option<Stat>, now: real)
                   | SetCall(path: string, m: M, stat: Option<Stat>, now: real, writable: bool)
                   | InvalidateCall(path: string)
                   | ClearCall

  function Step<M>(c: Cache<M>, call: Call<M>): Cache<M> {
    match call
    case GetCall(p, st, now) => Get(c, p, st, now).0
    case SetCall(p, m, st, now, w) => Set(c, p, m, st, now, w).0
    case InvalidateCall(p) => Invalidate(c, p).0
    case ClearCall => Clear(c).0
  }

  function Run<M>(c: Cache<M>, calls: seq<Call<M>>): Cache<M>
    decreases |calls|
  {
    if calls == [] then c else Run(Step(c, calls[0]), calls[1..])
  }

  /** Over any run, the requests counted are exactly the `get` calls made,
      and memory hits never outnumber hits. */
  lemma {:induction false} RunCounters<M>(c: Cache<M>, calls: seq<Call<M>>)
    requires Sane(c.stats)
    ensures Sane(Run(c, calls).stats)
    ensures Run(c, calls).stats.hits + Run(c, calls).stats.misses == c.stats.hits + c.stats.misses + Gets(calls)
    decreases |calls|
  {
    if calls != [] {
      RunCounters(Step(c, calls[0]), calls[1..]);
    }
  }

  function Gets<M>(calls: seq<Call<M>>): nat {
    if calls == [] then 0 else (if calls[0].GetCall? then 1 else 0) + Gets(calls[1..])
  }
}
