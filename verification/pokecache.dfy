/**
  A time-expiring byte cache: string keys map to entries that remember when
  they were added, and a periodic sweep (the "reaper") deletes every entry
  older than the cache's interval.

  The mutex and the background goroutine are not modelled: every operation
  below is what one critical section does to the map, and the wall clock is
  an explicit `now` argument.
 */
module PokeCache {
  import opened Wrappers

  /** Bounds of Go's `time.Duration`, a signed 64-bit count of nanoseconds. */
  const MinDuration: int := -0x8000_0000_0000_0000
  const MaxDuration: int := 0x7FFF_FFFF_FFFF_FFFF

  type Duration = d: int | MinDuration <= d <= MaxDuration

  /** A wall-clock reading in nanoseconds. Readings need not increase. */
  type Instant = int

  type Bytes = seq<bv8>

  /** One cached payload and the instant it was added. */
  datatype Entry = Entry(createdAt: Instant, val: Bytes)

  /**
    The store, together with the interval the cache was created with. The
    interval is the reaper's sleep period and its age limit.
   */
  datatype Cache = Cache(entries: map<string, Entry>, interval: Duration)

  /**
    `now.Sub(since)`: the elapsed time between two instants, saturated to the
    range of a Duration as Go's `time.Time.Sub` does.
   */
  function Elapsed(now: Instant, since: Instant): (d: Duration)
    ensures MinDuration <= now - since <= MaxDuration ==> d == now - since
    ensures d == MaxDuration <==> now - since >= MaxDuration
    ensures d == MinDuration <==> now - since <= MinDuration
  {
    var d := now - since;
    if d > MaxDuration then MaxDuration
    else if d < MinDuration then MinDuration
    else d
  }

  /** The reaper's test: the entry's age exceeds the interval. */
  predicate Expired(e: Entry, now: Instant, interval: Duration)
  {
    Elapsed(now, e.createdAt) > interval
  }

  /** No entry of the cache is old enough for a sweep at `now` to remove it. */
  predicate Settled(c: Cache, now: Instant)
  {
    forall k :: k in c.entries ==> !Expired(c.entries[k], now, c.interval)
  }

  /** A fresh cache: no key is present, whatever interval it is given. */
  function NewCache(interval: Duration): (c: Cache)
    ensures c.interval == interval
    ensures forall k :: Get(c, k) == None
  {
    Cache(map[], interval)
  }

  /** Looks a key up. The entry's age plays no part. */
  function Get(c: Cache, key: string): (r: Option<Bytes>)
    ensures r.Some? <==> key in c.entries
    ensures key in c.entries ==> r == Some(c.entries[key].val)
  {
    if key in c.entries then Some(c.entries[key].val) else None
  }

  /** Inserts or replaces the entry for `key`, stamped with `now`. */
  function Add(c: Cache, key: string, val: Bytes, now: Instant): (r: Cache)
    ensures r.interval == c.interval
    ensures r.entries.Keys == c.entries.Keys + {key}
    ensures r.entries[key] == Entry(now, val)
    ensures Get(r, key) == Some(val)
    ensures forall k :: k != key && k in c.entries ==> r.entries[k] == c.entries[k]
    ensures forall k :: k != key ==> Get(r, k) == Get(c, k)
  {
    c.(entries := c.entries[key := Entry(now, val)])
  }

  /** One pass of the reaper at `now`: drops exactly the expired entries. */
  function Reap(c: Cache, now: Instant): (r: Cache)
    ensures r.interval == c.interval
    ensures r.entries.Keys <= c.entries.Keys
    ensures forall k :: k in c.entries ==> (k in r.entries <==> !Expired(c.entries[k], now, c.interval))
    ensures forall k :: k in r.entries ==> r.entries[k] == c.entries[k]
    ensures Settled(r, now)
  {
    c.(entries := map k | k in c.entries && !Expired(c.entries[k], now, c.interval) :: c.entries[k])
  }

  /**
    The reaper's loop body as written: visit the keys in any order and delete
    the current key when its entry has expired.
   */
  method ReapSweep(c: Cache, now: Instant) returns (r: Cache)
    ensures r == Reap(c, now)
    ensures Settled(r, now)
  {
    var m := c.entries;
    var unvisited := c.entries.Keys;
    while unvisited != {}
      invariant unvisited <= m.Keys <= c.entries.Keys
      invariant forall k :: k in m ==> m[k] == c.entries[k]
      invariant forall k :: k in c.entries && k !in unvisited ==>
                  (k in m <==> !Expired(c.entries[k], now, c.interval))
      decreases unvisited
    {
      var key :| key in unvisited;
      var entry := m[key];
      if Expired(entry, now, c.interval) {
        m := m - {key};
      }
      unvisited := unvisited - {key};
    }
    r := c.(entries := m);
    assert r.entries == Reap(c, now).entries;
  }

  /** Below the largest interval, an entry expires exactly when it is older than the interval. */
  lemma ExpiredExactly(e: Entry, now: Instant, interval: Duration)
    ensures interval < MaxDuration ==> (Expired(e, now, interval) <==> now - e.createdAt > interval)
    ensures interval == MaxDuration ==> !Expired(e, now, interval)
  {
  }

  /** A later clock reading never makes an entry younger. */
  lemma ElapsedMonotone(t1: Instant, t2: Instant, since: Instant)
    requires t1 <= t2
    ensures Elapsed(t1, since) <= Elapsed(t2, since)
  {
  }

  /**
    Staleness is enforced only by the reaper: `Get` still returns an expired
    entry, and the next sweep is what removes it.
   */
  lemma StaleUntilSwept(c: Cache, key: string, now: Instant)
    requires key in c.entries && Expired(c.entries[key], now, c.interval)
    ensures Get(c, key) == Some(c.entries[key].val)
    ensures Get(Reap(c, now), key) == None
  {
  }

  /** On a fresh cache, a value added under any key is read straight back. */
  lemma FreshCacheRoundTrip(interval: Duration, key: string, val: Bytes, now: Instant)
    ensures Get(Add(NewCache(interval), key, val, now), key) == Some(val)
    ensures forall k :: k != key ==> Get(Add(NewCache(interval), key, val, now), k) == None
  {
  }

  /** Two adds to one key leave what the second one alone would have left. */
  lemma LastWriteWins(c: Cache, key: string, v1: Bytes, v2: Bytes, t1: Instant, t2: Instant)
    ensures Add(Add(c, key, v1, t1), key, v2, t2) == Add(c, key, v2, t2)
    ensures Get(Add(Add(c, key, v1, t1), key, v2, t2), key) == Some(v2)
    ensures |Add(Add(c, key, v1, t1), key, v2, t2).entries| == |Add(c, key, v1, t1).entries|
  {
  }

  /** A second sweep at the same instant changes nothing. */
  lemma ReapIdempotent(c: Cache, now: Instant)
    ensures Reap(Reap(c, now), now) == Reap(c, now)
  {
  }

  /** A sweep followed by a later one removes what the later one alone removes. */
  lemma ReapLater(c: Cache, t1: Instant, t2: Instant)
    requires t1 <= t2
    ensures Reap(Reap(c, t1), t2) == Reap(c, t2)
  {
  }

  /**
    A value added at `added` is still found after a sweep at `now` when it
    is not older than the interval, and is gone when it is older, unless
    the interval is the `int64` maximum, which no saturated age exceeds.
   */
  lemma SweepAfterAdd(c: Cache, key: string, val: Bytes, added: Instant, now: Instant)
    ensures now - added <= c.interval ==> Get(Reap(Add(c, key, val, added), now), key) == Some(val)
    ensures c.interval < MaxDuration && now - added > c.interval ==> Get(Reap(Add(c, key, val, added), now), key) == None
    ensures c.interval == MaxDuration ==> Get(Reap(Add(c, key, val, added), now), key) == Some(val)
  {
  }
}
