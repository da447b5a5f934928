/** The DNS cache as a finite map: what the functions of DNS_server/cache.c mean. */
module CacheTable {
  import opened Bytes

  const TTL_VALUE_CACHE := 50

  /** A record, its time to live, and when it was last inserted or hit. */
  datatype Held = Held(value: Value, ttl: int, stamp: int)

  type Table = map<Name, Held>

  predicate Expired(h: Held, now: int) {
    now - h.stamp >= h.ttl
  }

  /** DNSCacheCleanUp. */
  function Sweep(t: Table, now: int): Table {
    map n | n in t && !Expired(t[n], now) :: t[n]
  }

  /** lookupDNSCache: a sweep at one reading of the clock, then a search, and on a hit a new time
      stamp at a later reading. */
  function Lookup(t: Table, n: Name, sweepAt: int, touchAt: int): (Option<Value>, Table) {
    var s := Sweep(t, sweepAt);
    if n in s then (Some(s[n].value), s[n := s[n].(stamp := touchAt)]) else (None, s)
  }

  /** addCacheEntry: an entry already there, even an expired one, is left alone. */
  function Add(t: Table, n: Name, v: Value, now: int): Table {
    if n in t then t else t[n := Held(v, TTL_VALUE_CACHE, now)]
  }
}
