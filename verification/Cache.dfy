/** The cache of DNS_server/cache.c on the heap: 100 buckets of singly linked entries, prepended to,
    unlinked in place, and stamped in place. */
module Cache {
  import opened Bytes
  import opened CacheTable

  const MAX_CACHE := 100
  const UINT_MOD := 0x1_0000_0000

  // ---- The hash ----

  /** hash * 33 + c over the string, from 5381, without overflow. */
  function Polynomial(s: Name): int {
    if s == [] then 5381 else Polynomial(s[..|s| - 1]) * 33 + Signed(s[|s| - 1])
  }

  function Power33(n: nat): nat {
    if n == 0 then 1 else 33 * Power33(n - 1)
  }

  /** Each byte, as a signed char, times 33 to the number of bytes after it. */
  function Weighted(s: Name): int {
    if s == [] then 0 else Signed(s[0]) * Power33(|s| - 1) + Weighted(s[1..])
  }

  lemma {:induction false} WeightedSnoc(s: Name, c: byte)
    ensures Weighted(s + [c]) == Weighted(s) * 33 + Signed(c)
  {
    if s == [] {
      assert Weighted([c]) == Signed(c) * Power33(0) + Weighted([]);
    } else {
      assert (s + [c])[1..] == s[1..] + [c];
      WeightedSnoc(s[1..], c);
      var p := Power33(|s| - 1);
      assert Power33(|s|) == 33 * p;
      assert Signed(s[0]) * (33 * p) == Signed(s[0]) * p * 33;
    }
  }

  /** The loop's value in closed form. */
  lemma {:induction false} PolynomialIs(s: Name)
    ensures Polynomial(s) == 5381 * Power33(|s|) + Weighted(s)
  {
    if s != [] {
      var init, c := s[..|s| - 1], s[|s| - 1];
      assert s == init + [c];
      PolynomialIs(init);
      WeightedSnoc(init, c);
    }
  }

  function BucketOf(s: Name): (b: nat)
    ensures b < MAX_CACHE
  {
    Polynomial(s) % UINT_MOD % MAX_CACHE
  }

  lemma HashStep(p: int, hash: int, c: int)
    requires hash == p % UINT_MOD
    ensures (((hash * 32) % UINT_MOD + hash) % UINT_MOD + c) % UINT_MOD == (p * 33 + c) % UINT_MOD
  {
  }

  /** hash_function: unsigned 32-bit arithmetic, wrapping at every step. */
  method HashFunction(domain: Name) returns (index: nat)
    ensures index == BucketOf(domain)
    ensures index == (5381 * Power33(|domain|) + Weighted(domain)) % 0x1_0000_0000 % 100
  {
    var hash := 5381;
    for i := 0 to |domain|
      invariant hash == Polynomial(domain[..i]) % UINT_MOD
    {
      assert domain[..i + 1][..i] == domain[..i];
      HashStep(Polynomial(domain[..i]), hash, Signed(domain[i]));
      hash := (((hash * 32) % UINT_MOD + hash) % UINT_MOD + Signed(domain[i])) % UINT_MOD;
    }
    assert domain[..|domain|] == domain;
    PolynomialIs(domain);
    index := hash % MAX_CACHE;
  }

  // ---- Entries and chains ----

  class CacheEntry {
    const domainName: Name
    const recordValue: Value
    var ttl: int
    var timestamp: int
    var next: CacheEntry?

    /** dns_createNewEntry: the times and the link are set when the entry is added. */
    constructor (domainName: Name, recordValue: Value)
      ensures this.domainName == domainName && this.recordValue == recordValue
      ensures ttl == 0 && timestamp == 0 && next == null
    {
      this.domainName, this.recordValue := domainName, recordValue;
      ttl, timestamp, next := 0, 0, null;
    }

    ghost function View(): Held
      reads `ttl, `timestamp
    {
      Held(recordValue, ttl, timestamp)
    }
  }

  /** The nodes of c, linked in this order from head and closed by null. */
  ghost predicate Linked(head: CacheEntry?, c: seq<CacheEntry>)
    reads Nodes(c)`next
  {
    && head == (if c == [] then null else c[0])
    && (forall k | 0 <= k < |c| - 1 :: c[k].next == c[k + 1])
    && (c != [] ==> c[|c| - 1].next == null)
  }

  lemma NextInList(head: CacheEntry?, c: seq<CacheEntry>, k: nat)
    requires Linked(head, c) && k < |c|
    ensures c[k].next == if k + 1 < |c| then c[k + 1] else null
  {
  }

  ghost function Nodes(c: seq<CacheEntry>): set<CacheEntry> {
    set e | e in c
  }

  ghost predicate UniqueNames(c: seq<CacheEntry>) {
    forall i, j | 0 <= i < j < |c| :: c[i].domainName != c[j].domainName
  }

  /** The entries of a chain whose time has run out. */
  ghost function Dead(c: seq<CacheEntry>, now: int): set<CacheEntry>
    reads Nodes(c)`ttl, Nodes(c)`timestamp
  {
    set e | e in c && Expired(e.View(), now)
  }

  /** What is left of a chain, in order, when some entries are taken out. */
  ghost function Without(c: seq<CacheEntry>, gone: set<CacheEntry>): (kept: seq<CacheEntry>)
    ensures forall e | e in kept :: e in c && e !in gone
    ensures forall e | e in c && e !in gone :: e in kept
  {
    if c == [] then []
    else if c[0] in gone then Without(c[1..], gone)
    else [c[0]] + Without(c[1..], gone)
  }

  lemma {:induction false} WithoutUnique(c: seq<CacheEntry>, gone: set<CacheEntry>)
    requires UniqueNames(c)
    ensures UniqueNames(Without(c, gone))
  {
    if c != [] {
      WithoutUnique(c[1..], gone);
      var kept := Without(c[1..], gone);
      forall k | 0 <= k < |kept|
        ensures kept[k].domainName != c[0].domainName
      {
        assert kept[k] in kept;
        var j :| 0 <= j < |c[1..]| && c[1..][j] == kept[k];
        assert c[j + 1] == kept[k];
      }
    }
  }

  lemma SplitList(kept: seq<CacheEntry>, rest: seq<CacheEntry>)
    requires rest != []
    ensures var list := kept + rest;
            && |list| == |kept| + |rest|
            && list[|kept|] == rest[0]
            && list[..|kept|] + list[|kept| + 1..] == kept + rest[1..]
            && kept + rest == (kept + [rest[0]]) + rest[1..]
            && (kept != [] ==> list[|kept| - 1] == kept[|kept| - 1])
            && (|rest| > 1 ==> list[|kept| + 1] == rest[1])
            && Nodes(kept + rest[1..]) <= Nodes(list)
  {
  }

  lemma WithoutStep(kept: seq<CacheEntry>, rest: seq<CacheEntry>, gone: set<CacheEntry>)
    requires rest != []
    ensures kept + Without(rest, gone) ==
              if rest[0] in gone then kept + Without(rest[1..], gone)
              else kept + [rest[0]] + Without(rest[1..], gone)
  {
  }

  lemma UniqueWithout(list: seq<CacheEntry>, k: nat)
    requires k < |list| && UniqueNames(list)
    ensures UniqueNames(list[..k] + list[k + 1..])
  {
  }

  /** Takes the k-th node out of a list by changing the link before it. */
  method Unlink(buckets: array<CacheEntry?>, b: nat, previous: CacheEntry?, entry: CacheEntry,
                ghost list: seq<CacheEntry>, ghost k: nat)
    requires b < buckets.Length && k < |list| && Linked(buckets[b], list) && UniqueNames(list)
    requires entry == list[k] && previous == if k == 0 then null else list[k - 1]
    modifies buckets, Nodes(list)`next
    ensures Linked(buckets[b], list[..k] + list[k + 1..])
    ensures entry.next == old(entry.next)
    ensures forall i | 0 <= i < buckets.Length && i != b :: buckets[i] == old(buckets[i])
  {
    if previous == null {
      buckets[b] := entry.next;
    } else {
      assert previous in list;
      ghost var shorter := list[..k] + list[k + 1..];
      assert forall i | 0 <= i < |list| && i != k - 1 :: list[i].domainName != list[k - 1].domainName;
      previous.next := entry.next;
      assert forall i | 0 <= i < |list| && i != k - 1 :: list[i].next == old(list[i].next);
      forall i | 0 <= i < |shorter| - 1
        ensures shorter[i].next == shorter[i + 1]
      {
        if i < k - 1 {
          assert shorter[i] == list[i] && shorter[i + 1] == list[i + 1];
        } else if i == k - 1 {
          assert shorter[i] == previous && shorter[i + 1] == list[k + 1];
        } else {
          assert shorter[i] == list[i + 1] && shorter[i + 1] == list[i + 2];
        }
      }
    }
  }

  /** The clean-up of one bucket: expired entries are unlinked where they stand, the others keep
      their order and their fields. Only links are written. */
  method SweepBucket(buckets: array<CacheEntry?>, b: nat, now: int, ghost c: seq<CacheEntry>)
    returns (ghost kept: seq<CacheEntry>)
    requires b < buckets.Length && Linked(buckets[b], c) && UniqueNames(c)
    modifies buckets, Nodes(c)`next
    ensures kept == Without(c, old(Dead(c, now)))
    ensures Linked(buckets[b], kept)
    ensures forall k | 0 <= k < buckets.Length && k != b :: buckets[k] == old(buckets[k])
  {
    hide Linked, UniqueNames, Nodes, Dead, Without;
    var entry := buckets[b];
    var previous: CacheEntry? := null;
    kept := [];
    ghost var gone, rest := Dead(c, now), c;
    SweepStart(buckets[b], c, now);
    while entry != null
      invariant entry == if rest == [] then null else rest[0]
      invariant previous == if kept == [] then null else kept[|kept| - 1]
      invariant Linked(buckets[b], kept + rest) && UniqueNames(kept + rest)
      invariant Nodes(kept + rest) <= Nodes(c)
      invariant kept + Without(rest, gone) == Without(c, gone)
      invariant forall e | e in c :: e in gone <==> Expired(e.View(), now)
      invariant forall k | 0 <= k < buckets.Length && k != b :: buckets[k] == old(buckets[k])
      decreases |rest|
    {
      FirstOfRest(kept, rest, c);
      previous, kept := SweepEntry(buckets, b, now, previous, entry, kept, rest, c, gone);
      entry := entry.next;
      rest := rest[1..];
    }
    SweepEnd(kept, gone);
  }

  lemma SweepStart(head: CacheEntry?, c: seq<CacheEntry>, now: int)
    requires Linked(head, c)
    ensures head == if c == [] then null else c[0]
    ensures [] + c == c && [] + Without(c, Dead(c, now)) == Without(c, Dead(c, now))
    ensures forall e | e in c :: e in Dead(c, now) <==> Expired(e.View(), now)
  {
  }

  lemma FirstOfRest(kept: seq<CacheEntry>, rest: seq<CacheEntry>, c: seq<CacheEntry>)
    requires rest != [] && Nodes(kept + rest) <= Nodes(c)
    ensures rest[0] in c
  {
    assert (kept + rest)[|kept|] == rest[0];
    assert rest[0] in Nodes(kept + rest);
  }

  lemma SweepEnd(kept: seq<CacheEntry>, gone: set<CacheEntry>)
    ensures kept + [] == kept && kept + Without([], gone) == kept
  {
  }

  /** One turn of the loop: the entry is unlinked, or becomes the previous one. */
  method SweepEntry(buckets: array<CacheEntry?>, b: nat, now: int, before: CacheEntry?, entry: CacheEntry,
                    ghost had: seq<CacheEntry>, ghost rest: seq<CacheEntry>,
                    ghost c: seq<CacheEntry>, ghost gone: set<CacheEntry>)
    returns (previous: CacheEntry?, ghost kept: seq<CacheEntry>)
    requires b < buckets.Length && rest != [] && entry == rest[0]
    requires before == if had == [] then null else had[|had| - 1]
    requires Linked(buckets[b], had + rest) && UniqueNames(had + rest)
    requires Nodes(had + rest) <= Nodes(c)
    requires entry in gone <==> Expired(entry.View(), now)
    modifies buckets, Nodes(c)`next
    ensures kept == if entry in gone then had else had + [rest[0]]
    ensures previous == if kept == [] then null else kept[|kept| - 1]
    ensures entry.next == old(entry.next) == if |rest| == 1 then null else rest[1]
    ensures Linked(buckets[b], kept + rest[1..]) && UniqueNames(kept + rest[1..])
    ensures kept + Without(rest[1..], gone) == had + Without(rest, gone)
    ensures Nodes(kept + rest[1..]) <= Nodes(c)
    ensures forall k | 0 <= k < buckets.Length && k != b :: buckets[k] == old(buckets[k])
  {
    hide Linked, UniqueNames, Without, Nodes;
    ghost var list := had + rest;
    SplitList(had, rest);
    WithoutStep(had, rest, gone);
    NextInList(buckets[b], list, |had|);
    if now - entry.timestamp >= entry.ttl {
      UniqueWithout(list, |had|);
      Unlink(buckets, b, before, entry, list, |had|);
      previous, kept := before, had;
    } else {
      previous, kept := entry, had + [rest[0]];
    }
  }

  // ---- One bucket ----

  /** A well-formed chain: linked and acyclic, every entry in the bucket of its hash, no name
      twice, and holding exactly the table t. */
  ghost predicate Chain(head: CacheEntry?, c: seq<CacheEntry>, b: nat, t: Table)
    reads Nodes(c)
  {
    && Linked(head, c)
    && UniqueNames(c)
    && (forall e | e in c :: BucketOf(e.domainName) == b && e.domainName in t && t[e.domainName] == e.View())
    && (forall n | n in t :: BucketOf(n) == b && exists e | e in c :: e.domainName == n)
  }

  method SweepChain(buckets: array<CacheEntry?>, b: nat, now: int, ghost c: seq<CacheEntry>, ghost t: Table)
    returns (ghost kept: seq<CacheEntry>)
    requires b < buckets.Length && Chain(buckets[b], c, b, t)
    modifies buckets, Nodes(c)`next
    ensures kept == Without(c, old(Dead(c, now))) && Nodes(kept) <= Nodes(c)
    ensures Chain(buckets[b], kept, b, Sweep(t, now))
    ensures forall k | 0 <= k < buckets.Length && k != b :: buckets[k] == old(buckets[k])
  {
    hide Linked, UniqueNames;
    ghost var gone := Dead(c, now);
    WithoutUnique(c, gone);
    kept := SweepBucket(buckets, b, now, c);
    forall n | n in Sweep(t, now)
      ensures exists e | e in kept :: e.domainName == n
    {
      var e: CacheEntry :| e in c && e.domainName == n;
      assert e !in gone;
      assert e in kept;
    }
  }

  /** The search down one list: the entry of that name, if there is one. */
  method Search(head: CacheEntry?, name: Name, ghost c: seq<CacheEntry>) returns (entry: CacheEntry?)
    requires Linked(head, c)
    ensures entry == null ==> forall e | e in c :: e.domainName != name
    ensures entry != null ==> entry in c && entry.domainName == name
  {
    hide Linked;
    entry := head;
    ghost var k := 0;
    HeadOfList(head, c);
    while entry != null
      invariant 0 <= k <= |c|
      invariant entry == if k < |c| then c[k] else null
      invariant Linked(head, c)
      invariant forall j | 0 <= j < k :: c[j].domainName != name
      decreases |c| - k
    {
      if entry.domainName == name {
        return entry;
      }
      NextInList(head, c, k);
      entry := entry.next;
      k := k + 1;
    }
  }

  method FindInChain(head: CacheEntry?, name: Name, ghost c: seq<CacheEntry>, ghost b: nat, ghost t: Table)
    returns (entry: CacheEntry?)
    requires Chain(head, c, b, t)
    ensures entry == null <==> name !in t
    ensures entry != null ==> entry in c && entry.domainName == name && t[name] == entry.View()
  {
    hide Linked, UniqueNames;
    entry := Search(head, name, c);
  }

  lemma HeadOfList(head: CacheEntry?, c: seq<CacheEntry>)
    requires Linked(head, c)
    ensures head == if c == [] then null else c[0]
  {
  }

  /** A new time stamp on an entry of the chain. */
  method Touch(entry: CacheEntry, touchAt: int,
               ghost head: CacheEntry?, ghost c: seq<CacheEntry>, ghost b: nat, ghost t: Table)
    requires Chain(head, c, b, t) && entry in c
    modifies entry`timestamp
    ensures entry.domainName in t
    ensures Chain(head, c, b, t[entry.domainName := t[entry.domainName].(stamp := touchAt)])
  {
    UniqueEntry(c, entry);
    entry.timestamp := touchAt;
  }

  lemma UniqueEntry(c: seq<CacheEntry>, entry: CacheEntry)
    requires UniqueNames(c) && entry in c
    ensures forall e | e in c && e.domainName == entry.domainName :: e == entry
  {
  }

  /** A new entry in front of the chain. */
  method Prepend(buckets: array<CacheEntry?>, b: nat, entry: CacheEntry, now: int,
                 ghost c: seq<CacheEntry>, ghost t: Table)
    requires b < buckets.Length && Chain(buckets[b], c, b, t) && entry !in Nodes(c)
    requires BucketOf(entry.domainName) == b && entry.domainName !in t
    modifies buckets, entry
    ensures Chain(buckets[b], [entry] + c, b, t[entry.domainName := Held(entry.recordValue, TTL_VALUE_CACHE, now)])
    ensures forall k | 0 <= k < buckets.Length && k != b :: buckets[k] == old(buckets[k])
  {
    hide Chain, UniqueNames, Linked;
    entry.timestamp := now;
    entry.ttl := TTL_VALUE_CACHE;
    entry.next := buckets[b];
    buckets[b] := entry;
    LongerChain(entry, c, b, t);
  }

  lemma LongerChain(entry: CacheEntry, c: seq<CacheEntry>, b: nat, t: Table)
    requires Chain(entry.next, c, b, t)
    requires BucketOf(entry.domainName) == b && entry.domainName !in t
    ensures Chain(entry, [entry] + c, b, t[entry.domainName := entry.View()])
  {
  }

  // ---- The cache ----

  /** The part of a table that belongs in one bucket. */
  ghost function Part(t: Table, b: nat): Table {
    map n | n in t && BucketOf(n) == b :: t[n]
  }

  lemma PartOfSweep(t: Table, b: nat, now: int)
    ensures Part(Sweep(t, now), b) == Sweep(Part(t, b), now)
  {
  }

  lemma PartOfUpdate(t: Table, n: Name, h: Held)
    ensures Part(t[n := h], BucketOf(n)) == Part(t, BucketOf(n))[n := h]
    ensures forall b: nat | b != BucketOf(n) :: Part(t[n := h], b) == Part(t, b)
  {
  }

  class DnsCache {
    const buckets: array<CacheEntry?>
    ghost var chains: seq<seq<CacheEntry>>
    ghost var contents: Table

    ghost function Entries(): set<CacheEntry>
      reads this`chains
    {
      set b, e | 0 <= b < |chains| && e in Nodes(chains[b]) :: e
    }

    /** In every bucket a well-formed chain, holding that bucket's part of the table; and no entry
        in two chains. */
    ghost predicate Valid()
      reads this, buckets, Entries()
    {
      && buckets.Length == MAX_CACHE == |chains|
      && (forall b | 0 <= b < MAX_CACHE :: Chain(buckets[b], chains[b], b, Part(contents, b)))
      && (forall i, j | 0 <= i < MAX_CACHE && 0 <= j < MAX_CACHE && i != j :: Nodes(chains[i]) !! Nodes(chains[j]))
    }

    /** initializeDNSCache. */
    constructor ()
      ensures Valid() && fresh(buckets) && buckets.Length == 100 && contents == map[] && Entries() == {}
    {
      buckets := new CacheEntry?[MAX_CACHE](_ => null);
      chains := seq(MAX_CACHE, _ => []);
      contents := map[];
    }

    /** DNSCacheCleanUp: in all 100 buckets, exactly the entries whose time has run out are
        unlinked; the others keep their order and their fields. */
    method CleanUp(now: int)
      requires Valid()
      modifies this`chains, this`contents, buckets, Entries()`next
      ensures Valid() && Entries() <= old(Entries())
      ensures forall b | 0 <= b < MAX_CACHE :: chains[b] == Without(old(chains[b]), old(Dead(chains[b], now)))
      ensures contents == Sweep(old(contents), now)
    {
      hide Chain, Part, Without, Dead, Sweep;
      ghost var was := chains;
      for i := 0 to MAX_CACHE
        invariant |chains| == MAX_CACHE
        invariant contents == old(contents)
        invariant forall b | 0 <= b < i ::
                    && chains[b] == Without(was[b], old(Dead(chains[b], now)))
                    && Nodes(chains[b]) <= Nodes(was[b])
                    && Chain(buckets[b], chains[b], b, Sweep(Part(contents, b), now))
        invariant forall b | i <= b < MAX_CACHE ::
                    && chains[b] == was[b]
                    && Chain(buckets[b], chains[b], b, Part(contents, b))
      {
        ghost var kept := SweepChain(buckets, i, now, chains[i], Part(contents, i));
        chains := chains[i := kept];
      }
      forall b | 0 <= b < MAX_CACHE
        ensures Chain(buckets[b], chains[b], b, Part(Sweep(contents, now), b))
      {
        PartOfSweep(contents, b, now);
      }
      contents := Sweep(contents, now);
    }

    method FindEntry(name: Name) returns (entry: CacheEntry?)
      requires Valid()
      ensures entry == null <==> name !in contents
      ensures entry != null ==>
                && entry in chains[BucketOf(name)] && entry in Entries()
                && entry.domainName == name && contents[name] == entry.View()
    {
      hide Chain, Part;
      ghost var b := BucketOf(name);
      assert Nodes(chains[b]) <= Entries();
      assert Chain(buckets[b], chains[b], b, Part(contents, b));
      var index := HashFunction(name);
      PartHas(contents, name);
      assert Chain(buckets[b], chains[b], b, Part(contents, b));
      entry := FindInChain(buckets[index], name, chains[b], b, Part(contents, b));
      assert entry != null ==> entry in Nodes(chains[b]);
    }

    /** lookupDNSCache. */
    method LookupEntry(name: Name, sweepAt: int, touchAt: int) returns (value: Option<Value>)
      requires Valid()
      modifies this`chains, this`contents, buckets, Entries()
      ensures Valid() && Entries() <= old(Entries())
      ensures (value, contents) == Lookup(old(contents), name, sweepAt, touchAt)
      ensures forall b | 0 <= b < MAX_CACHE :: chains[b] == Without(old(chains[b]), old(Dead(chains[b], sweepAt)))
    {
      hide Chain, Part, Without, Dead;
      CleanUp(sweepAt);
      var entry := FindEntry(name);
      if entry == null {
        return None;
      }
      ghost var b := BucketOf(name);
      PartOfUpdate(contents, name, contents[name].(stamp := touchAt));
      PartHas(contents, name);
      Touch(entry, touchAt, buckets[b], chains[b], b, Part(contents, b));
      contents := contents[name := contents[name].(stamp := touchAt)];
      value := Some(entry.recordValue);
    }

    /** addCacheEntry: a new entry goes to the front of its chain; a name already there is left as
        it is, and the new entry is not stored. */
    method AddEntry(entry: CacheEntry, now: int)
      requires Valid() && entry !in Entries()
      modifies this`chains, this`contents, buckets, entry
      ensures Valid() && Entries() <= old(Entries()) + {entry}
      ensures contents == Add(old(contents), entry.domainName, entry.recordValue, now)
      ensures var b := BucketOf(entry.domainName);
              chains == if entry.domainName in old(contents) then old(chains)
                        else old(chains)[b := [entry] + old(chains)[b]]
    {
      hide Chain, Part;
      ghost var b := BucketOf(entry.domainName);
      assert Nodes(chains[b]) <= Entries();
      assert Chain(buckets[b], chains[b], b, Part(contents, b));
      var found := FindEntry(entry.domainName);
      if found != null {
        return;
      }
      var index := HashFunction(entry.domainName);
      PartOfUpdate(contents, entry.domainName, Held(entry.recordValue, TTL_VALUE_CACHE, now));
      PartHas(contents, entry.domainName);
      assert Chain(buckets[b], chains[b], b, Part(contents, b));
      Prepend(buckets, index, entry, now, chains[b], Part(contents, b));
      chains := chains[b := [entry] + chains[b]];
      contents := contents[entry.domainName := Held(entry.recordValue, TTL_VALUE_CACHE, now)];
      assert Nodes(chains[b]) == Nodes(old(chains[b])) + {entry};
    }
  }

  lemma PartHas(t: Table, n: Name)
    ensures n in Part(t, BucketOf(n)) <==> n in t
    ensures n in t ==> Part(t, BucketOf(n))[n] == t[n]
  {
  }
}
