/** `retriveValue` and `handleClient` over the cache on the heap, and a whole run of the server from
    an empty cache, proved against the functions of Resolver. */
module Server {
  import opened Bytes
  import opened Cache
  import opened CacheTable
  import opened Redirects
  import opened Resolver
  import opened Trie
  import opened Words

  /** The search: the cache first, then the trie, then the same again for a name server. The entry
      is a new one, and not yet in the cache. */
  method RetrieveValue(cache: DnsCache, w: World, name: Name, tick: nat)
    returns (entry: CacheEntry?, next: nat, ghost hit: bool)
    requires cache.Valid() && Ends(w, name)
    modifies cache`chains, cache`contents, cache.buckets, cache.Entries()
    ensures cache.Valid() && cache.Entries() <= old(cache.Entries())
    ensures entry != null ==> fresh(entry)
    ensures Retrieve(w, old(cache.contents), name, tick)
         == Retrieved(if entry == null then None else Some(Entry(entry.domainName, entry.recordValue)),
                      hit, cache.contents, next)
    decreases Depth(w, name)
  {
    hide Find, WordsOf, Lookup, Without, Dead, DnsCache.Valid;
    var words := ExtractWords(name);
    var nrWords: int := ArraySize(words, WordsOf(name));
    nrWords := nrWords - 1;
    var cached := cache.LookupEntry(name, w.clock(tick), w.clock(tick + 1));
    next := tick + 2;
    if cached.Some? {
      entry := new CacheEntry(name, cached.value);
      return entry, next, true;
    }
    hit := false;
    var answer := Walk(w.root, words, nrWords, WordsOf(name));
    match answer {
      case Found(value) =>
        entry := new CacheEntry(name, value);
      case Redirect(ns) =>
        RedirectIsNearer(w, name, Chosen(w, tick, ns));
        if w.coin(tick) {
          entry, next, hit := RetrieveValue(cache, w, ns.domain1, next);
        } else {
          entry, next, hit := RetrieveValue(cache, w, ns.domain2, next);
        }
      case Missing =>
        entry := null;
    }
  }

  /** One request, from the query text to the reply. */
  method HandleClient(cache: DnsCache, w: World, name: Name, tick: nat, ghost s: State)
    returns (reply: Reply, next: nat, ghost s': State)
    requires cache.Valid() && Answerable(w, name)
    requires s.table == cache.contents && s.tick == tick
    modifies cache`chains, cache`contents, cache.buckets, cache.Entries()
    ensures cache.Valid() && fresh(cache.Entries() - old(cache.Entries()))
    ensures (reply, s') == Handle(w, s, name)
    ensures s'.table == cache.contents && s'.tick == next
  {
    hide DnsCache.Valid, Retrieve, Add;
    if name == TRIE {
      return Drawing, tick, s;
    }
    var entry, k, hit := RetrieveValue(cache, w, name, tick);
    next := k + 1;
    if entry != null {
      cache.AddEntry(entry, w.clock(k));
      reply, s' := Text(entry.recordValue), State(cache.contents, next, s.log);
    } else {
      var address := w.upstream(k);
      if address != [] {
        entry := new CacheEntry(name, address);
        cache.AddEntry(entry, w.clock(k));
        reply := Text(entry.recordValue);
        s' := State(cache.contents, next, s.log + [Forward(Entry(name, address), tick, k)]);
      } else {
        reply, s' := NotFound, State(cache.contents, next, s.log);
      }
    }
  }

  /** The requests of a run, one after another, from an empty cache. */
  method Serve(w: World, names: seq<Name>) returns (replies: seq<Reply>)
    requires forall n | n in names :: Answerable(w, n)
    ensures |replies| == |names|
    ensures forall i | 0 <= i < |names| :: replies[i] == ReplyTo(w, names, i)
  {
    hide Handle, Answerable;
    var cache := new DnsCache();
    var tick := 0;
    ghost var s := START;
    replies := [];
    for i := 0 to |names|
      invariant cache.Valid() && fresh(cache) && fresh(cache.buckets) && fresh(cache.Entries())
      invariant s == After(w, names, i) && s.table == cache.contents && s.tick == tick
      invariant |replies| == i
      invariant forall j | 0 <= j < i :: replies[j] == ReplyTo(w, names, j)
    {
      var reply;
      reply, tick, s := HandleClient(cache, w, names[i], tick, s);
      replies := replies + [reply];
    }
  }
}
