/** The server over its zones: what the theorems about redirects and runs say of zone data. */
module Zones {
  import opened Bytes
  import opened Redirects
  import opened Resolver
  import opened Trie
  import opened Words

  /** The trie that main builds for these zones. */
  ghost predicate Built(w: World, zones: seq<Zone>)
    ensures Built(w, zones) ==> Labelled(zones)
  {
    Labelled(zones) && w.root == Forest(zones)
  }

  /** The query stops at the i-th zone's own node: no earlier zone has the same last label, and the
      zone's node is not hidden inside its branch. Zones of one or two labels stop their names. */
  ghost predicate StopsAt(zones: seq<Zone>, i: nat, ws: seq<Word>)
    requires Labelled(zones) && i < |zones|
  {
    Visible(zones, i) && !Hidden(zones[i]) && ws == Apex(zones[i])
  }

  // ---- Which answer a name gets ----

  lemma {:induction false} HostsFoundOrMissing(hosts: seq<Host>, w: Word)
    ensures HostAnswer(hosts, w).Found? || HostAnswer(hosts, w).Missing?
    ensures forall k | 0 <= k < |hosts| && hosts[k].name == w :: HostAnswer(hosts, w).Found?
  {
    if hosts != [] {
      HostsFoundOrMissing(hosts[1..], w);
      assert forall k | 1 <= k < |hosts| :: hosts[k] == hosts[1..][k - 1];
    }
  }

  /** Which answer a zone gives, apart from its hosts. */
  lemma ZoneAnswerKinds(z: Zone, ws: seq<Word>)
    requires z.labels != []
    ensures ZoneAnswer(z, ws).Redirect? ==> !Hidden(z) && ws == Apex(z) && ZoneAnswer(z, ws) == Redirect(z.ns)
    ensures ZoneAnswer(z, ws) == Undefined <==> Unset(z, ws)
  {
    if ws != [] {
      HostsFoundOrMissing(z.hosts, ws[0]);
    }
  }

  lemma ApexAnswer(z: Zone)
    requires z.labels != [] && !Hidden(z)
    ensures ZoneAnswer(z, Apex(z)) == Redirect(z.ns)
  {
    assert |[AT] + Apex(z)| == |Apex(z)| + 1;
  }

  lemma ApexRedirects(w: World, zones: seq<Zone>, n: Name, z: nat)
    requires Built(w, zones) && z < |zones| && StopsAt(zones, z, WordsOf(n))
    ensures Local(w, n) == Redirect(zones[z].ns)
  {
    hide Find, Forest, WordsOf, ZoneAnswer, Hidden;
    VisibleZoneAnswers(zones, Apex(zones[z]), z);
    ApexAnswer(zones[z]);
  }

  lemma ApexIsZone(w: World, zones: seq<Zone>, n: Name) returns (i: nat)
    requires Built(w, zones) && Local(w, n).Redirect?
    ensures i < |zones| && StopsAt(zones, i, WordsOf(n)) && Local(w, n) == Redirect(zones[i].ns)
  {
    hide Find, FlatAnswer, WordsOf, ZoneAnswer, Forest, Hidden;
    var ws := WordsOf(n);
    NoWords(w.root);
    ForestIsFlatTable(zones, ws);
    i := FlatFirst(zones, ws);
    ZoneAnswerKinds(zones[i], ws);
  }

  lemma NoWords(root: Node)
    ensures Find(root, []) == if root.children == [] then Missing else Undefined
  {
  }

  /** The trie has an answer to these words, or knows that it has none. */
  ghost predicate Answered(zones: seq<Zone>, ws: seq<Word>)
    requires Labelled(zones)
  {
    if ws == [] then zones == []
    else forall i | 0 <= i < |zones| && Visible(zones, i) :: !Unset(zones[i], ws)
  }

  /** Exactly which queries make the walk follow a pointer that was never set. */
  lemma UndefinedExactly(w: World, zones: seq<Zone>, n: Name)
    requires Built(w, zones)
    ensures Local(w, n) == Undefined <==> !Answered(zones, WordsOf(n))
  {
    hide Find, FlatAnswer, WordsOf, ZoneAnswer, Unset, Forest;
    var ws := WordsOf(n);
    if ws == [] {
      NoWords(w.root);
    } else {
      if Local(w, n) == Undefined {
        ForestIsFlatTable(zones, ws);
        var i := FlatFirst(zones, ws);
        ZoneAnswerKinds(zones[i], ws);
      }
      if i :| 0 <= i < |zones| && Visible(zones, i) && Unset(zones[i], ws) {
        ZoneAnswerKinds(zones[i], ws);
        ZoneAnswersItsOwn(zones[i], ws);
        VisibleZoneAnswers(zones, ws, i);
      }
    }
  }

  /** One of the two families the label count opens: in a zone of three or more labels, a middle
      label directly under the last one follows an unset pointer. */
  lemma MiddleLabelUnset(zones: seq<Zone>, i: nat, m: nat)
    requires Labelled(zones) && i < |zones| && Visible(zones, i) && 0 < m < |zones[i].labels| - 1
    ensures Find(Forest(zones), [zones[i].labels[m], LastLabel(zones[i])]) == Undefined
  {
    hide Find, Forest;
    var z := zones[i];
    assert Middle(z)[m - 1] == z.labels[m];
    VisibleZoneAnswers(zones, [z.labels[m], LastLabel(z)], i);
  }

  /** The other: with two or more labels the bare last label does, while a zone's only label
      redirects. */
  lemma BareLastLabel(zones: seq<Zone>, i: nat)
    requires Labelled(zones) && i < |zones| && Visible(zones, i)
    ensures Find(Forest(zones), [LastLabel(zones[i])])
         == if |zones[i].labels| == 1 then Redirect(zones[i].ns) else Undefined
  {
    hide Find, Forest;
    var z := zones[i];
    VisibleZoneAnswers(zones, [LastLabel(z)], i);
    assert |z.labels| == 1 ==> z.labels == [LastLabel(z)] && |[AT] + Apex(z)| == 2;
  }

  /** And "@" under a zone's own node, the one child without a record. */
  lemma AtUnset(zones: seq<Zone>, i: nat)
    requires Labelled(zones) && i < |zones| && Visible(zones, i) && !Hidden(zones[i])
    ensures Find(Forest(zones), [['@' as byte]] + Apex(zones[i])) == Undefined
  {
    hide Find, Forest;
    var ws := [AT] + Apex(zones[i]);
    assert ws[|ws| - 1] == LastLabel(zones[i]);
    VisibleZoneAnswers(zones, ws, i);
  }

  // ---- Delegation between zones ----

  /** Zone i names zone j itself as one of its name servers. */
  ghost predicate Delegates(zones: seq<Zone>, i: nat, j: nat)
    requires Labelled(zones) && i < |zones| && j < |zones|
  {
    StopsAt(zones, j, WordsOf(zones[i].ns.domain1)) || StopsAt(zones, j, WordsOf(zones[i].ns.domain2))
  }

  ghost predicate Delegation(zones: seq<Zone>, path: seq<nat>)
    requires Labelled(zones)
  {
    && path != []
    && (forall k | 0 <= k < |path| :: path[k] < |zones|)
    && (forall k | 0 <= k < |path| - 1 :: Delegates(zones, path[k], path[k + 1]))
  }

  /** The zones delegated to are all different, and the last one's servers are proper queries. */
  ghost predicate Sound(zones: seq<Zone>, path: seq<nat>)
    requires Labelled(zones) && Delegation(zones, path)
  {
    && (forall i, j | 0 <= i < j < |path| :: path[i] != path[j])
    && Answered(zones, WordsOf(zones[path[|path| - 1]].ns.domain1))
    && Answered(zones, WordsOf(zones[path[|path| - 1]].ns.domain2))
  }

  ghost predicate AllSound(zones: seq<Zone>, z: nat)
    requires Labelled(zones)
  {
    forall path | Delegation(zones, path) && path[0] == z :: Sound(zones, path)
  }

  /** Following a delegation down: the k-th zone is reached, with at most Depth - k redirects left. */
  lemma {:induction false} DelegationDescends(w: World, zones: seq<Zone>, n: Name, path: seq<nat>, k: nat)
    returns (m: Name)
    requires Built(w, zones) && Delegation(zones, path) && k < |path|
    requires Ends(w, n) && StopsAt(zones, path[0], WordsOf(n))
    ensures Ends(w, m) && StopsAt(zones, path[k], WordsOf(m)) && Depth(w, m) + k <= Depth(w, n)
    decreases k
  {
    hide Built, Ends, Local, WordsOf;
    if k == 0 {
      return n;
    }
    var p := DelegationDescends(w, zones, n, path, k - 1);
    ApexRedirects(w, zones, p, path[k - 1]);
    assert Delegates(zones, path[k - 1], path[k - 1 + 1]);
    var ns := zones[path[k - 1]].ns;
    m := if StopsAt(zones, path[k], WordsOf(ns.domain1)) then ns.domain1 else ns.domain2;
    RedirectIsNearer(w, p, m);
  }

  lemma {:induction false} SameWordsSafe(w: World, a: Name, b: Name, d: nat)
    requires WordsOf(a) == WordsOf(b)
    ensures Safe(w, a, d) <==> Safe(w, b, d)
  {
  }

  lemma SameWordsDepth(w: World, a: Name, b: Name)
    requires WordsOf(a) == WordsOf(b) && Ends(w, a) && Ends(w, b)
    ensures Depth(w, a) == Depth(w, b)
  {
    hide Safe, WordsOf;
    var d, e := Depth(w, a), Depth(w, b);
    SameWordsSafe(w, a, b, d);
    SameWordsSafe(w, a, b, e);
    if d < e {
      SafeDeeper(w, b, d, e - 1);
    }
    if e < d {
      SafeDeeper(w, a, e, d - 1);
    }
  }

  lemma EndingDelegationSound(w: World, zones: seq<Zone>, n: Name, path: seq<nat>)
    requires Built(w, zones) && Delegation(zones, path)
    requires Ends(w, n) && StopsAt(zones, path[0], WordsOf(n))
    ensures Sound(zones, path)
  {
    hide Ends, Local, WordsOf, Answered;
    forall i, j | 0 <= i < j < |path|
      ensures path[i] != path[j]
    {
      var a := DelegationDescends(w, zones, n, path, i);
      var b := DelegationDescends(w, zones, a, path[i..], j - i);
      if path[i] == path[j] {
        SameWordsDepth(w, a, b);
        assert false;
      }
    }
    var last := DelegationDescends(w, zones, n, path, |path| - 1);
    ApexRedirects(w, zones, last, path[|path| - 1]);
    ServersAnswered(w, zones, last);
  }

  lemma ServersAnswered(w: World, zones: seq<Zone>, n: Name)
    requires Built(w, zones) && Ends(w, n) && Local(w, n).Redirect?
    ensures Answered(zones, WordsOf(Local(w, n).ns.domain1)) && Answered(zones, WordsOf(Local(w, n).ns.domain2))
  {
    hide Built, StopsAt, Local, WordsOf, Answered;
    var ns := Local(w, n).ns;
    RedirectIsNearer(w, n, ns.domain1);
    RedirectIsNearer(w, n, ns.domain2);
    UndefinedExactly(w, zones, ns.domain1);
    UndefinedExactly(w, zones, ns.domain2);
  }

  lemma RedirectedBefore(w: World, n: Name, coins: nat -> bool, k: nat)
    requires Local(w, Chase(w, n, coins, k + 1)).Redirect?
    ensures Local(w, Chase(w, n, coins, k)).Redirect?
  {
  }

  /** A chase that still redirects has met a zone at every step. */
  lemma {:induction false} ChaseDelegates(w: World, zones: seq<Zone>, n: Name, z: nat, coins: nat -> bool, k: nat)
    returns (path: seq<nat>)
    requires Built(w, zones) && z < |zones| && StopsAt(zones, z, WordsOf(n))
    requires Local(w, Chase(w, n, coins, k)).Redirect?
    ensures |path| == k + 1 && path[0] == z && Delegation(zones, path)
    ensures forall m | 0 <= m <= k :: StopsAt(zones, path[m], WordsOf(Chase(w, n, coins, m)))
    decreases k
  {
    hide Built, StopsAt, Local, WordsOf;
    if k == 0 {
      return [z];
    }
    RedirectedBefore(w, n, coins, k - 1);
    var before := ChaseDelegates(w, zones, n, z, coins, k - 1);
    var i := ApexIsZone(w, zones, Chase(w, n, coins, k));
    ApexRedirects(w, zones, Chase(w, n, coins, k - 1), before[k - 1]);
    path := before + [i];
    assert forall j | 0 <= j < k :: path[j] == before[j];
    assert Delegates(zones, path[k - 1], path[k]);
  }

  lemma CycleUnsound(w: World, zones: seq<Zone>, n: Name, z: nat)
    requires Built(w, zones) && z < |zones| && StopsAt(zones, z, WordsOf(n)) && CycleFrom(w, n)
    ensures !AllSound(zones, z)
  {
    hide Built, StopsAt, Local, WordsOf, Answered, Chase;
    var coins: nat -> bool, i: nat, j: nat :| ReturnsTo(w, n, coins, i, j);
    var path := ChaseDelegates(w, zones, n, z, coins, j);
    SameZone(zones, path[i], path[j], WordsOf(Chase(w, n, coins, i)));
    assert !Sound(zones, path);
  }

  lemma SameZone(zones: seq<Zone>, i: nat, j: nat, ws: seq<Word>)
    requires Labelled(zones) && i < |zones| && j < |zones| && StopsAt(zones, i, ws) && StopsAt(zones, j, ws)
    ensures i == j
  {
  }

  /** The first unset pointer of a chase, one step after a redirect. */
  lemma {:induction false} FirstUnset(w: World, n: Name, coins: nat -> bool, k: nat) returns (m: nat)
    requires Local(w, Chase(w, n, coins, k)) == Undefined && Local(w, n) != Undefined
    ensures m < k && Local(w, Chase(w, n, coins, m)).Redirect? && Local(w, Chase(w, n, coins, m + 1)) == Undefined
    decreases k
  {
    hide Local;
    if Local(w, Chase(w, n, coins, k - 1)) == Undefined {
      m := FirstUnset(w, n, coins, k - 1);
    } else {
      m := k - 1;
    }
  }

  lemma UnsetUnsound(w: World, zones: seq<Zone>, n: Name, z: nat)
    requires Built(w, zones) && z < |zones| && StopsAt(zones, z, WordsOf(n)) && UnsetFrom(w, n)
    ensures !AllSound(zones, z)
  {
    hide Built, StopsAt, Local, WordsOf, Answered;
    var coins: nat -> bool, k: nat :| Local(w, Chase(w, n, coins, k)) == Undefined;
    ApexRedirects(w, zones, n, z);
    var m := FirstUnset(w, n, coins, k);
    var path := ChaseDelegates(w, zones, n, z, coins, m);
    ApexRedirects(w, zones, Chase(w, n, coins, m), path[m]);
    UndefinedExactly(w, zones, Chase(w, n, coins, m + 1));
    assert !Sound(zones, path);
  }

  /** Read off the zone data: exactly which names can be asked for, over any zones. A name must not
      be one of the queries that follow an unset pointer; and where it stops at a zone, the zones
      that its name servers delegate to must not come back to one already met, nor end in such a
      query. */
  lemma NameEndsExactly(w: World, zones: seq<Zone>, n: Name)
    requires Built(w, zones)
    ensures Ends(w, n) <==>
              && Answered(zones, WordsOf(n))
              && forall z: nat | z < |zones| && StopsAt(zones, z, WordsOf(n)) :: AllSound(zones, z)
  {
    hide Built, StopsAt, Local, WordsOf, Answered, Sound;
    UndefinedExactly(w, zones, n);
    EndsExactlyWithoutCycle(w, n);
    if Local(w, n).Redirect? {
      var i := ApexIsZone(w, zones, n);
      if Ends(w, n) {
        forall path | Delegation(zones, path) && path[0] == i
          ensures Sound(zones, path)
        {
          EndingDelegationSound(w, zones, n, path);
        }
        forall z: nat | z < |zones| && StopsAt(zones, z, WordsOf(n))
          ensures AllSound(zones, z)
        {
          SameZone(zones, z, i, WordsOf(n));
        }
      } else if CycleFrom(w, n) {
        CycleUnsound(w, zones, n, i);
      } else {
        UnsetUnsound(w, zones, n, i);
      }
    } else {
      if z: nat :| z < |zones| && StopsAt(zones, z, WordsOf(n)) {
        ApexRedirects(w, zones, n, z);
        assert false;
      }
      SettledEnds(w, n);
    }
  }

  lemma SettledEnds(w: World, n: Name)
    requires !Local(w, n).Redirect?
    ensures Ends(w, n) <==> Local(w, n) != Undefined
  {
    if Local(w, n) == Undefined {
      assert forall d: nat :: !Safe(w, n, d);
    } else {
      assert Safe(w, n, 0);
    }
  }

  /** A zone that never resolves its own name: "a.b", with itself for both its name servers. */
  const LOOP_NAME: Name := [97, 46, 98]
  const LOOP := Zone([[97], [98]], [], NameServers(LOOP_NAME, LOOP_NAME))

  lemma LoopingZone(w: World)
    requires w.root == Forest([LOOP])
    ensures CycleFrom(w, LOOP_NAME) && !Ends(w, LOOP_NAME)
    ensures forall coins: nat -> bool :: !Comes(w, LOOP_NAME, coins)
  {
    LoopRedirects(w);
    hide Local;
    forall coins: nat -> bool
      ensures !Comes(w, LOOP_NAME, coins)
    {
      forall k: nat
        ensures Chase(w, LOOP_NAME, coins, k) == LOOP_NAME
      {
        LoopStays(w, coins, k);
      }
    }
    var coins := (k: nat) => true;
    LoopStays(w, coins, 0);
    LoopStays(w, coins, 1);
    assert ReturnsTo(w, LOOP_NAME, coins, 0, 1);
    EndsExactlyWithoutCycle(w, LOOP_NAME);
  }

  lemma LoopRedirects(w: World)
    requires w.root == Forest([LOOP])
    ensures Local(w, LOOP_NAME) == Redirect(NameServers(LOOP_NAME, LOOP_NAME))
  {
    WordsAtDot([97], [98]);
    WordsOfToken([97]);
    WordsOfToken([98]);
    assert LOOP_NAME == [97] + [DOT] + [98];
    assert WordsOf(LOOP_NAME) == LOOP.labels;
    ApexIsName(LOOP);
    hide WordsOf;
    ApexRedirects(w, [LOOP], LOOP_NAME, 0);
  }

  lemma {:induction false} LoopStays(w: World, coins: nat -> bool, k: nat)
    requires Local(w, LOOP_NAME) == Redirect(NameServers(LOOP_NAME, LOOP_NAME))
    ensures Chase(w, LOOP_NAME, coins, k) == LOOP_NAME
  {
    hide Local;
    if k > 0 {
      LoopStays(w, coins, k - 1);
    }
  }

  // ---- Name servers that are hosts ----

  /** n is a name under which the walk finds a host. */
  ghost predicate IsHost(zones: seq<Zone>, n: Name)
    requires Labelled(zones)
  {
    exists i, k: nat | 0 <= i < |zones| && k < |zones[i].hosts| ::
      && Visible(zones, i) && !Hidden(zones[i]) && zones[i].hosts[k].name != AT
      && WordsOf(n) == HostName(zones[i], k)
  }

  ghost predicate ServersAreHosts(zones: seq<Zone>, i: nat)
    requires Labelled(zones) && i < |zones|
  {
    IsHost(zones, zones[i].ns.domain1) && IsHost(zones, zones[i].ns.domain2)
  }

  lemma IsHostIsLocal(w: World, zones: seq<Zone>, n: Name)
    requires Built(w, zones) && IsHost(zones, n)
    ensures Local(w, n).Found?
  {
    hide Find, WordsOf;
    var i, k: nat :|
      0 <= i < |zones| && k < |zones[i].hosts| && Visible(zones, i) && !Hidden(zones[i])
      && zones[i].hosts[k].name != AT && WordsOf(n) == HostName(zones[i], k);
    HostResolves(zones, i, k);
    HostsFoundOrMissing(zones[i].hosts, zones[i].hosts[k].name);
  }

  /** A zone whose own name servers are hosts of the zones redirects to local records, whatever the
      other zones' name servers are. */
  lemma HostServersAreLocal(w: World, zones: seq<Zone>, n: Name, z: nat)
    requires Built(w, zones) && z < |zones| && ServersAreHosts(zones, z) && StopsAt(zones, z, WordsOf(n))
    ensures ServersLocal(w, n) && Local(w, n) == Redirect(zones[z].ns)
  {
    hide Built, StopsAt, Local, WordsOf, IsHost;
    ApexRedirects(w, zones, n, z);
    IsHostIsLocal(w, zones, zones[z].ns.domain1);
    IsHostIsLocal(w, zones, zones[z].ns.domain2);
  }

  /** With every name server a host, only the stops are left to avoid. */
  lemma EndsExactly(w: World, zones: seq<Zone>, n: Name)
    requires Built(w, zones)
    requires forall z | 0 <= z < |zones| && Visible(zones, z) && !Hidden(zones[z]) :: ServersAreHosts(zones, z)
    ensures Ends(w, n) <==> Answered(zones, WordsOf(n))
  {
    hide Built, Local, WordsOf, Answered, ServersAreHosts;
    UndefinedExactly(w, zones, n);
    if Local(w, n).Redirect? {
      var z := ApexIsZone(w, zones, n);
      HostServersAreLocal(w, zones, n, z);
      LocalServersEnd(w, n);
    } else {
      SettledEnds(w, n);
    }
  }

  // ---- The server as a whole ----

  /** From zone data to reply: in every run and under every clock, a host is answered with its own
      record, whatever the other zones and the name servers are. For zones of at most two labels
      HostName is the full name. */
  lemma HostsAnswered(w: World, zones: seq<Zone>, ns: seq<Name>, i: nat, z: nat, k: nat)
    requires Built(w, zones) && z < |zones| && k < |zones[z].hosts|
    requires Visible(zones, z) && !Hidden(zones[z]) && ProperHosts(zones[z].hosts)
    requires i < |ns| && forall n | n in ns :: Answerable(w, n)
    requires ns[i] != TRIE && WordsOf(ns[i]) == HostName(zones[z], k)
    ensures ReplyTo(w, ns, i) == Text(zones[z].hosts[k].value)
  {
    hide ReplyTo, After, Answerable, Find, WordsOf, Forest;
    CacheIsTransparent(w, ns, i);
    HostResolves(zones, z, k);
    HostAnswerAt(zones[z].hosts, k);
  }

  /** And a zone's own name with the record of whichever of its two name servers the coin chooses,
      if these are hosts. */
  lemma ApexesAnswered(w: World, zones: seq<Zone>, ns: seq<Name>, i: nat, z: nat)
    requires Built(w, zones) && z < |zones| && ServersAreHosts(zones, z)
    requires i < |ns| && forall n | n in ns :: Answerable(w, n)
    requires ns[i] != TRIE && StopsAt(zones, z, WordsOf(ns[i]))
    ensures var servers := zones[z].ns;
            AnsweredBy(w, if w.coin(After(w, ns, i).tick) then servers.domain1 else servers.domain2, ReplyTo(w, ns, i))
  {
    hide Built, ServersAreHosts, ServersLocal, Local, ReplyTo, After, Answerable, AnsweredBy;
    HostServersAreLocal(w, zones, ns[i], z);
    ApexAnswered(w, ns, i);
  }
}
