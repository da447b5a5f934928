/** `retriveValue` of DNS_server/trie.c and the decision in `handleClient` of DNS_server/mainDNS.c,
    on values: what one request does to the cache, and what holds over every sequence of requests.
    One request is one step; the clock, rand() % 2 and the upstream server are inputs. */
module Resolver {
  import opened Bytes
  import opened CacheTable
  import opened Redirects
  import opened Trie

  datatype Entry = Entry(name: Name, value: Value)

  /** What retriveValue returns: an entry or NULL; and whether the last search of the cache hit. */
  datatype Retrieved = Retrieved(entry: Option<Entry>, hit: bool, table: Table, tick: nat)

  /** A forwarded query: the answer taken, when the request began, and when it was forwarded. */
  datatype Forward = Forward(entry: Entry, asked: nat, sent: nat)

  datatype State = State(table: Table, tick: nat, log: seq<Forward>)

  datatype Reply = Drawing | Text(value: Value) | NotFound

  const TRIE: Name := [116, 114, 105, 101]    // "trie"

  const START := State(map[], 0, [])

  ghost predicate Monotone(w: World) {
    forall i: nat, j: nat | i <= j :: w.clock(i) <= w.clock(j)
  }

  function Chosen(w: World, k: nat, ns: NameServers): Name {
    if w.coin(k) then ns.domain1 else ns.domain2
  }

  // ---- One request ----

  /** retriveValue: the cache first, then the trie, then the same again for a name server. */
  ghost function Retrieve(w: World, t: Table, n: Name, k: nat): (r: Retrieved)
    requires Ends(w, n)
    decreases Depth(w, n)
  {
    var (cached, s) := Lookup(t, n, w.clock(k), w.clock(k + 1));
    if cached.Some? then Retrieved(Some(Entry(n, cached.value)), true, s, k + 2)
    else
      match Local(w, n)
      case Found(v) => Retrieved(Some(Entry(n, v)), false, s, k + 2)
      case Redirect(ns) =>
        RedirectIsNearer(w, n, Chosen(w, k, ns));
        Retrieve(w, s, Chosen(w, k, ns), k + 2)
      case _ => Retrieved(None, false, s, k + 2)
  }

  ghost predicate Answerable(w: World, n: Name) {
    n == TRIE || Ends(w, n)
  }

  /** handleClient: the reply, and the state it leaves. */
  ghost function Handle(w: World, s: State, n: Name): (Reply, State)
    requires Answerable(w, n)
  {
    if n == TRIE then (Drawing, s)
    else
      var r := Retrieve(w, s.table, n, s.tick);
      match r.entry
      case Some(e) =>
        (Text(e.value), State(Add(r.table, e.name, e.value, w.clock(r.tick)), r.tick + 1, s.log))
      case None =>
        var v := w.upstream(r.tick);
        if v == [] then (NotFound, State(r.table, r.tick + 1, s.log))
        else
          (Text(v), State(Add(r.table, n, v, w.clock(r.tick)), r.tick + 1,
                          s.log + [Forward(Entry(n, v), s.tick, r.tick)]))
  }

  /** A request for the picture of the trie touches nothing. */
  lemma TrieRequest(w: World, s: State)
    ensures var n := ['t' as byte, 'r' as byte, 'i' as byte, 'e' as byte];
            Answerable(w, n) && Handle(w, s, n) == (Drawing, s)
  {
  }

  /** The state after the first i requests. */
  ghost function After(w: World, ns: seq<Name>, i: nat): State
    requires i <= |ns| && forall n | n in ns :: Answerable(w, n)
  {
    if i == 0 then START else Handle(w, After(w, ns, i - 1), ns[i - 1]).1
  }

  /** The reply to the i-th request. */
  ghost function ReplyTo(w: World, ns: seq<Name>, i: nat): Reply
    requires i < |ns| && forall n | n in ns :: Answerable(w, n)
  {
    Handle(w, After(w, ns, i), ns[i]).0
  }

  // ---- The cache never changes a local answer ----

  /** The answer without any cache: follow the redirects the coin chooses. */
  ghost function Resolve(w: World, n: Name, k: nat): (e: Option<Entry>)
    requires Ends(w, n)
    decreases Depth(w, n)
  {
    match Local(w, n)
    case Found(v) => Some(Entry(n, v))
    case Redirect(ns) =>
      RedirectIsNearer(w, n, Chosen(w, k, ns));
      Resolve(w, Chosen(w, k, ns), k + 2)
    case _ => None
  }

  /** The coins that a resolution begun at tick k reads. */
  ghost function CoinsFrom(w: World, k: nat): nat -> bool {
    (j: nat) => w.coin(k + 2 * j)
  }

  lemma {:induction false} ChaseShift(w: World, n: Name, coins: nat -> bool, later: nat -> bool, m: nat)
    requires Local(w, n).Redirect? && forall j: nat :: later(j) == coins(j + 1)
    ensures var ns := Local(w, n).ns;
            Chase(w, n, coins, m + 1) == Chase(w, if coins(0) then ns.domain1 else ns.domain2, later, m)
  {
    hide Local;
    if m > 0 {
      ChaseShift(w, n, coins, later, m - 1);
    } else {
      assert Chase(w, n, coins, 0) == n;
    }
  }

  /** Resolution follows the chase under the coins it reads, to the first name that has a record or
      is not there. */
  lemma {:induction false} ResolveFollowsChase(w: World, n: Name, k: nat) returns (m: nat)
    requires Ends(w, n)
    ensures var last := Chase(w, n, CoinsFrom(w, k), m);
            match Resolve(w, n, k)
            case Some(e) => e.name == last && Local(w, last) == Found(e.value)
            case None => Local(w, last) == Missing
    decreases Depth(w, n)
  {
    hide Local;
    if Local(w, n).Redirect? {
      var next := Chosen(w, k, Local(w, n).ns);
      RedirectIsNearer(w, n, next);
      var rest := ResolveFollowsChase(w, next, k + 2);
      m := rest + 1;
      ChaseShift(w, n, CoinsFrom(w, k), CoinsFrom(w, k + 2), rest);
    } else {
      m := 0;
      assert !Local(w, n).Undefined? by {
        EndsDefined(w, n);
      }
    }
  }

  lemma EndsDefined(w: World, n: Name)
    requires Ends(w, n)
    ensures Local(w, n) != Undefined
  {
  }

  /** m is n, or one of the names that redirects lead to from n. */
  ghost predicate Reaches(w: World, n: Name, k: nat, m: Name)
    requires Ends(w, n)
    decreases Depth(w, n)
  {
    n == m ||
    match Local(w, n)
    case Redirect(ns) =>
      RedirectIsNearer(w, n, Chosen(w, k, ns));
      Reaches(w, Chosen(w, k, ns), k + 2, m)
    case _ => false
  }

  /** A forwarded answer: upstream gave it, when resolution had come to nothing. */
  ghost predicate Forwarded(w: World, f: Forward) {
    && f.entry.value == w.upstream(f.sent) != []
    && Ends(w, f.entry.name) && !Local(w, f.entry.name).Found?
    && Resolve(w, f.entry.name, f.asked) == None
  }

  ghost predicate InLog(log: seq<Forward>, e: Entry) {
    exists f | f in log :: f.entry == e
  }

  /** A cached pair is the name's own record if it has one, and otherwise an answer from upstream. */
  ghost predicate Right(w: World, log: seq<Forward>, e: Entry) {
    match Local(w, e.name)
    case Found(v) => e.value == v
    case _ => InLog(log, e)
  }

  ghost predicate Faithful(w: World, s: State) {
    && (forall n | n in s.table :: s.table[n].ttl == 50 && Right(w, s.log, Entry(n, s.table[n].value)))
    && (forall f | f in s.log :: Forwarded(w, f))
  }

  /** Pairs of the cache before a retrieval, and nothing else, are there after it. */
  ghost predicate Within(s: Table, t: Table) {
    forall n | n in s :: n in t && s[n].value == t[n].value && s[n].ttl == t[n].ttl
  }

  lemma {:induction false} RetrieveKeepsPairs(w: World, t: Table, n: Name, k: nat)
    requires Ends(w, n)
    ensures var r := Retrieve(w, t, n, k);
            && Within(r.table, t)
            && r.tick > k
            && (n !in Lookup(t, n, w.clock(k), w.clock(k + 1)).1 && !r.hit ==> n !in r.table)
    decreases Depth(w, n)
  {
    var (cached, s) := Lookup(t, n, w.clock(k), w.clock(k + 1));
    if cached == None && Local(w, n).Redirect? {
      var m := Chosen(w, k, Local(w, n).ns);
      RedirectIsNearer(w, n, m);
      RetrieveKeepsPairs(w, s, m, k + 2);
    }
  }

  /** After a retrieval its entry's name is cached exactly when the search for it hit; a name that
      came to nothing is not cached. So the add that follows inserts exactly on a miss. */
  lemma {:induction false} CachedExactlyOnHit(w: World, t: Table, n: Name, k: nat)
    requires Ends(w, n)
    ensures var r := Retrieve(w, t, n, k);
            match r.entry
            case Some(e) => e.name in r.table <==> r.hit
            case None => n !in r.table && !r.hit
    decreases Depth(w, n)
  {
    var (cached, s) := Lookup(t, n, w.clock(k), w.clock(k + 1));
    if cached == None && Local(w, n).Redirect? {
      var m := Chosen(w, k, Local(w, n).ns);
      RedirectIsNearer(w, n, m);
      CachedExactlyOnHit(w, s, m, k + 2);
      RetrieveKeepsPairs(w, s, m, k + 2);
    }
  }

  /** With a faithful cache: a local name yields its own record; anything else a retrieval yields
      is what it would yield without a cache, or came from upstream; and it comes to nothing only
      where there is nothing to find. */
  lemma {:induction false} RetrieveRight(w: World, s: State, t: Table, n: Name, k: nat)
    requires Ends(w, n) && Faithful(w, s) && Within(t, s.table)
    ensures var r, e := Retrieve(w, t, n, k), Resolve(w, n, k);
            && (r.entry == e || (r.entry.Some? && InLog(s.log, r.entry.value)))
            && (r.entry.Some? ==> Right(w, s.log, r.entry.value) && Reaches(w, n, k, r.entry.value.name))
            && (Local(w, n).Found? ==> r.entry == Some(Entry(n, Local(w, n).value)))
    decreases Depth(w, n)
  {
    var (cached, swept) := Lookup(t, n, w.clock(k), w.clock(k + 1));
    if cached.Some? {
      assert Right(w, s.log, Entry(n, s.table[n].value));
    } else if Local(w, n).Redirect? {
      var m := Chosen(w, k, Local(w, n).ns);
      RedirectIsNearer(w, n, m);
      RetrieveRight(w, s, swept, m, k + 2);
    }
  }

  lemma HandleKeepsFaithful(w: World, s: State, n: Name)
    requires Answerable(w, n) && Faithful(w, s)
    ensures Faithful(w, Handle(w, s, n).1)
  {
    hide Faithful, Retrieve, Resolve, Forwarded, Local;
    if n != TRIE {
      var r := Retrieve(w, s.table, n, s.tick);
      RetrieveKeepsPairs(w, s.table, n, s.tick);
      WithinItself(s.table);
      RetrieveRight(w, s, s.table, n, s.tick);
      FaithfulWithin(w, s, r.table, r.tick + 1);
      if r.entry.Some? {
        AddKeepsFaithful(w, State(r.table, r.tick + 1, s.log), r.entry.value, w.clock(r.tick));
      } else if w.upstream(r.tick) != [] {
        var f := Forward(Entry(n, w.upstream(r.tick)), s.tick, r.tick);
        NewForward(w, State(r.table, r.tick + 1, s.log), f);
        AddKeepsFaithful(w, State(r.table, r.tick + 1, s.log + [f]), f.entry, w.clock(r.tick));
      }
    }
  }

  lemma WithinItself(t: Table)
    ensures Within(t, t)
  {
  }

  lemma FaithfulWithin(w: World, s: State, t: Table, tick: nat)
    requires Faithful(w, s) && Within(t, s.table)
    ensures Faithful(w, State(t, tick, s.log))
  {
  }

  lemma AddKeepsFaithful(w: World, s: State, e: Entry, now: int)
    requires Faithful(w, s) && Right(w, s.log, e)
    ensures Faithful(w, s.(table := Add(s.table, e.name, e.value, now)))
  {
  }

  lemma NewForward(w: World, s: State, f: Forward)
    requires Faithful(w, s)
    requires f.entry.value == w.upstream(f.sent) != [] && Ends(w, f.entry.name)
    requires Resolve(w, f.entry.name, f.asked) == None
    ensures Faithful(w, s.(log := s.log + [f])) && Right(w, s.log + [f], f.entry)
  {
  }

  /** The invariant of every run, whatever the clock does. */
  lemma {:induction false} RunFaithful(w: World, ns: seq<Name>, i: nat)
    requires i <= |ns| && forall n | n in ns :: Answerable(w, n)
    ensures Faithful(w, After(w, ns, i))
  {
    if i > 0 {
      RunFaithful(w, ns, i - 1);
      HandleKeepsFaithful(w, After(w, ns, i - 1), ns[i - 1]);
    }
  }

  /** What a server without a cache replies at this point. */
  ghost function Uncached(w: World, s: State, n: Name): Reply
    requires Answerable(w, n)
  {
    if n == TRIE then Drawing
    else
      match Resolve(w, n, s.tick)
      case Some(e) => Text(e.value)
      case None =>
        var v := w.upstream(Retrieve(w, s.table, n, s.tick).tick);
        if v == [] then NotFound else Text(v)
  }

  /** The j-th request is the one that the log's entry f tells of: it was forwarded, and answered
      with what upstream gave. */
  ghost predicate Asked(w: World, ns: seq<Name>, j: nat, f: Forward)
    requires j < |ns| && forall n | n in ns :: Answerable(w, n)
  {
    && ns[j] == f.entry.name && ns[j] != TRIE
    && After(w, ns, j).tick == f.asked
    && ReplyTo(w, ns, j) == Text(f.entry.value)
  }

  /** The log is the history of the run: each of its entries is an earlier request. */
  lemma {:induction false} LogIsHistory(w: World, ns: seq<Name>, i: nat)
    requires i <= |ns| && forall n | n in ns :: Answerable(w, n)
    ensures forall f | f in After(w, ns, i).log :: exists j | 0 <= j < i :: Asked(w, ns, j, f)
  {
    hide Retrieve, Answerable;
    if i > 0 {
      LogIsHistory(w, ns, i - 1);
      forall f | f in After(w, ns, i).log
        ensures exists j | 0 <= j < i :: Asked(w, ns, j, f)
      {
        if f !in After(w, ns, i - 1).log {
          assert Asked(w, ns, i - 1, f);
        }
      }
    }
  }

  /** Over every run: a name of the trie always gets its record; every other reply is the one
      given without a cache, or repeats the reply to an earlier request of the run, which resolved
      to nothing and was forwarded, for this name or one it is redirected to. */
  lemma CacheIsTransparent(w: World, ns: seq<Name>, i: nat)
    requires i < |ns| && forall n | n in ns :: Answerable(w, n)
    ensures var s, reply := After(w, ns, i), ReplyTo(w, ns, i);
            && (ns[i] != TRIE && Local(w, ns[i]).Found? ==> reply == Text(Local(w, ns[i]).value))
            && (reply == Uncached(w, s, ns[i])
                || exists f, j | f in s.log && 0 <= j < i ::
                     && Forwarded(w, f) && Asked(w, ns, j, f)
                     && Reaches(w, ns[i], s.tick, ns[j]) && reply == ReplyTo(w, ns, j))
  {
    var s, n := After(w, ns, i), ns[i];
    RunFaithful(w, ns, i);
    assert Answerable(w, n);
    if n != TRIE {
      RetrieveRight(w, s, s.table, n, s.tick);
      var r := Retrieve(w, s.table, n, s.tick);
      if r.entry != Resolve(w, n, s.tick) {
        var f :| f in s.log && f.entry == r.entry.value;
        LogIsHistory(w, ns, i);
        var j :| 0 <= j < i && Asked(w, ns, j, f);
        assert Forwarded(w, f);
      }
    }
  }

  // ---- Zone apexes ----

  /** The name redirects, and both names it can lead to have records of their own. */
  ghost predicate ServersLocal(w: World, n: Name) {
    Local(w, n).Redirect? && Local(w, Local(w, n).ns.domain1).Found? && Local(w, Local(w, n).ns.domain2).Found?
  }

  lemma LocalServersEnd(w: World, n: Name)
    requires ServersLocal(w, n)
    ensures Ends(w, n)
  {
    var ns := Local(w, n).ns;
    assert Safe(w, ns.domain1, 0) && Safe(w, ns.domain2, 0);
    assert Safe(w, n, 1);
  }

  lemma ApexResolves(w: World, n: Name, k: nat)
    requires ServersLocal(w, n) && Ends(w, n)
    ensures var server := Chosen(w, k, Local(w, n).ns);
            Local(w, server).Found? && Resolve(w, n, k) == Some(Entry(server, Local(w, server).value))
  {
  }

  /** A name whose two servers have local records is never the key of an entry of the cache,
      whatever the other zones are. */
  lemma NoApexCached(w: World, ns: seq<Name>, i: nat, apex: Name)
    requires i <= |ns| && forall n | n in ns :: Answerable(w, n)
    requires ServersLocal(w, apex)
    ensures apex !in After(w, ns, i).table
  {
    var s := After(w, ns, i);
    RunFaithful(w, ns, i);
    hide After;
    if apex in s.table {
      assert Right(w, s.log, Entry(apex, s.table[apex].value));
      var f :| f in s.log && f.entry == Entry(apex, s.table[apex].value);
      assert Forwarded(w, f);
      ApexResolves(w, apex, f.asked);
      assert false;
    }
  }

  lemma ApexRetrieved(w: World, t: Table, n: Name, k: nat, server: Name)
    requires ServersLocal(w, n) && Ends(w, n) && n !in t && server == Chosen(w, k, Local(w, n).ns)
    requires server in t ==> t[server].value == Local(w, server).value
    ensures Local(w, server).Found?
    ensures Retrieve(w, t, n, k).entry == Some(Entry(server, Local(w, server).value))
  {
    RedirectIsNearer(w, n, server);
  }

  /** The reply is that server's own record. */
  ghost predicate AnsweredBy(w: World, server: Name, reply: Reply) {
    Local(w, server).Found? && reply == Text(Local(w, server).value)
  }

  /** A name whose two servers have local records is always answered with the record of the one
      the coin chooses. */
  lemma ApexAnswered(w: World, ns: seq<Name>, i: nat)
    requires i < |ns| && forall n | n in ns :: Answerable(w, n)
    requires ns[i] != TRIE && ServersLocal(w, ns[i])
    ensures var servers := Local(w, ns[i]).ns;
            AnsweredBy(w, if w.coin(After(w, ns, i).tick) then servers.domain1 else servers.domain2, ReplyTo(w, ns, i))
  {
    hide Retrieve, After;
    var s, n := After(w, ns, i), ns[i];
    var server := Chosen(w, s.tick, Local(w, n).ns);
    assert Answerable(w, n);
    NoApexCached(w, ns, i, n);
    RunFaithful(w, ns, i);
    assert server in s.table ==> Right(w, s.log, Entry(server, s.table[server].value));
    ApexRetrieved(w, s.table, n, s.tick, server);
  }

  // ---- Expiry: fifty seconds after the last touch ----

  datatype Kept = Kept(value: Value, touched: int)

  /** A cache that never removes anything and is never swept. */
  type Ideal = map<Name, Kept>

  ghost predicate Fresh(m: Ideal, n: Name, now: int) {
    n in m && now - m[n].touched < 50
  }

  datatype IdealRetrieved = IdealRetrieved(entry: Option<Entry>, hit: bool, kept: Ideal, tick: nat)

  datatype IdealState = IdealState(kept: Ideal, tick: nat)

  const IDEAL_START := IdealState(map[], 0)

  ghost function IdealRetrieve(w: World, m: Ideal, n: Name, k: nat): IdealRetrieved
    requires Ends(w, n)
    decreases Depth(w, n)
  {
    if Fresh(m, n, w.clock(k)) then
      IdealRetrieved(Some(Entry(n, m[n].value)), true, m[n := Kept(m[n].value, w.clock(k + 1))], k + 2)
    else
      match Local(w, n)
      case Found(v) => IdealRetrieved(Some(Entry(n, v)), false, m, k + 2)
      case Redirect(ns) =>
        RedirectIsNearer(w, n, Chosen(w, k, ns));
        IdealRetrieve(w, m, Chosen(w, k, ns), k + 2)
      case _ => IdealRetrieved(None, false, m, k + 2)
  }

  /** A hit stores nothing; a miss always stores what was found. */
  ghost function IdealHandle(w: World, s: IdealState, n: Name): (Reply, IdealState)
    requires Answerable(w, n)
  {
    if n == TRIE then (Drawing, s)
    else
      var r := IdealRetrieve(w, s.kept, n, s.tick);
      var now := w.clock(r.tick);
      match r.entry
      case Some(e) =>
        (Text(e.value), IdealState(if r.hit then r.kept else r.kept[e.name := Kept(e.value, now)], r.tick + 1))
      case None =>
        var v := w.upstream(r.tick);
        if v == [] then (NotFound, IdealState(r.kept, r.tick + 1))
        else (Text(v), IdealState(r.kept[n := Kept(v, now)], r.tick + 1))
  }

  ghost function IdealAfter(w: World, ns: seq<Name>, i: nat): IdealState
    requires i <= |ns| && forall n | n in ns :: Answerable(w, n)
  {
    if i == 0 then IDEAL_START else IdealHandle(w, IdealAfter(w, ns, i - 1), ns[i - 1]).1
  }

  ghost function IdealReplyTo(w: World, ns: seq<Name>, i: nat): Reply
    requires i < |ns| && forall n | n in ns :: Answerable(w, n)
  {
    IdealHandle(w, IdealAfter(w, ns, i), ns[i]).0
  }

  /** The table is the ideal cache without some of what is no longer fresh. */
  ghost predicate Refines(t: Table, m: Ideal, now: int) {
    && (forall n | n in t :: n in m && t[n] == Held(m[n].value, 50, m[n].touched))
    && (forall n | Fresh(m, n, now) :: n in t)
  }

  lemma LookupRefines(t: Table, m: Ideal, now: int, n: Name, sweepAt: int, touchAt: int)
    requires Refines(t, m, now) && now <= sweepAt
    ensures var (cached, s) := Lookup(t, n, sweepAt, touchAt);
            && (cached.Some? <==> Fresh(m, n, sweepAt))
            && (cached.Some? ==> cached.value == m[n].value && Refines(s, m[n := Kept(m[n].value, touchAt)], sweepAt))
            && (cached.None? ==> Refines(s, m, sweepAt))
  {
  }

  lemma {:induction false} RetrieveRefines(w: World, t: Table, m: Ideal, n: Name, k: nat, now: int)
    requires Ends(w, n) && Monotone(w) && Refines(t, m, now) && now <= w.clock(k)
    ensures var r, q := Retrieve(w, t, n, k), IdealRetrieve(w, m, n, k);
            && r.entry == q.entry && r.hit == q.hit && r.tick == q.tick
            && Refines(r.table, q.kept, w.clock(r.tick))
    decreases Depth(w, n)
  {
    hide Refines, Fresh, Local;
    var (cached, s) := Lookup(t, n, w.clock(k), w.clock(k + 1));
    LookupRefines(t, m, now, n, w.clock(k), w.clock(k + 1));
    if cached == None && Local(w, n).Redirect? {
      var next := Chosen(w, k, Local(w, n).ns);
      RedirectIsNearer(w, n, next);
      RetrieveRefines(w, s, m, next, k + 2, w.clock(k));
    } else {
      var r, q := Retrieve(w, t, n, k), IdealRetrieve(w, m, n, k);
      RefinesLater(r.table, q.kept, w.clock(k), w.clock(k + 2));
    }
  }

  lemma RefinesLater(t: Table, m: Ideal, now: int, later: int)
    requires Refines(t, m, now) && now <= later
    ensures Refines(t, m, later)
  {
  }

  /** A value stored where there was none, or none still fresh. */
  lemma AddRefines(t: Table, m: Ideal, now: int, e: Entry)
    requires Refines(t, m, now) && e.name !in t
    ensures Refines(Add(t, e.name, e.value, now), m[e.name := Kept(e.value, now)], now)
  {
  }

  lemma HandleRefines(w: World, s: State, q: IdealState, n: Name)
    requires Answerable(w, n) && Monotone(w)
    requires s.tick == q.tick && Refines(s.table, q.kept, w.clock(s.tick))
    ensures var ((reply, s'), (reply', q')) := (Handle(w, s, n), IdealHandle(w, q, n));
            reply == reply' && s'.tick == q'.tick && Refines(s'.table, q'.kept, w.clock(s'.tick))
  {
    if n != TRIE {
      RetrieveRefines(w, s.table, q.kept, n, s.tick, w.clock(s.tick));
      CachedExactlyOnHit(w, s.table, n, s.tick);
      var r, p := Retrieve(w, s.table, n, s.tick), IdealRetrieve(w, q.kept, n, s.tick);
      hide Retrieve, IdealRetrieve, Refines;
      var now, later := w.clock(r.tick), w.clock(r.tick + 1);
      var s', q' := Handle(w, s, n).1, IdealHandle(w, q, n).1;
      if r.entry.Some? && !r.hit {
        AddRefines(r.table, p.kept, now, r.entry.value);
      } else if r.entry.None? && w.upstream(r.tick) != [] {
        AddRefines(r.table, p.kept, now, Entry(n, w.upstream(r.tick)));
      }
      RefinesLater(s'.table, q'.kept, now, later);
    }
  }

  /** With a clock that never goes back, the swept, chained table cannot be told from the ideal
      one in any run: a name hits exactly while less than fifty seconds have passed since it was
      last inserted or hit. */
  lemma {:induction false} SlidingExpiry(w: World, ns: seq<Name>, i: nat)
    requires Monotone(w) && i <= |ns| && forall n | n in ns :: Answerable(w, n)
    ensures var s, q := After(w, ns, i), IdealAfter(w, ns, i);
            && s.tick == q.tick && Refines(s.table, q.kept, w.clock(s.tick))
            && (i < |ns| ==> ReplyTo(w, ns, i) == IdealReplyTo(w, ns, i))
  {
    hide Handle, IdealHandle, Answerable, Monotone;
    if i > 0 {
      SlidingExpiry(w, ns, i - 1);
      HandleRefines(w, After(w, ns, i - 1), IdealAfter(w, ns, i - 1), ns[i - 1]);
    }
    if i < |ns| {
      HandleRefines(w, After(w, ns, i), IdealAfter(w, ns, i), ns[i]);
    }
  }
}
