/** The redirects inside `retriveValue` of DNS_server/trie.c: when its recursion ends. */
module Redirects {
  import opened Bytes
  import opened Pigeonhole
  import opened Trie
  import opened Words

  /** Everything the server cannot choose. clock, coin and upstream are indexed by a counter that
      only grows: readings of the clock, rand() % 2 == 0, and the address text a forwarded query
      leaves in its buffer, empty when there is none. */
  datatype World = World(root: Node, clock: nat -> int, coin: nat -> bool, upstream: nat -> Value)

  /** The trie's own answer to a name. */
  function Local(w: World, n: Name): Answer {
    Find(w.root, WordsOf(n))
  }

  /** At most depth redirects follow, whatever the coin says, and none leads to a pointer that was
      never set. */
  ghost predicate Safe(w: World, n: Name, depth: nat)
    decreases depth
  {
    match Local(w, n)
    case Undefined => false
    case Redirect(ns) => depth > 0 && Safe(w, ns.domain1, depth - 1) && Safe(w, ns.domain2, depth - 1)
    case _ => true
  }

  /** The recursion of retriveValue from n ends, whatever the coin says. */
  ghost predicate Ends(w: World, n: Name) {
    exists depth: nat :: Safe(w, n, depth)
  }

  lemma {:induction false} SafeDeeper(w: World, n: Name, d: nat, e: nat)
    requires Safe(w, n, d) && d <= e
    ensures Safe(w, n, e)
    decreases d
  {
    match Local(w, n)
    case Redirect(ns) =>
      SafeDeeper(w, ns.domain1, d - 1, e - 1);
      SafeDeeper(w, ns.domain2, d - 1, e - 1);
    case _ =>
  }

  ghost function Least(w: World, n: Name, d: nat): (least: nat)
    requires Safe(w, n, d)
    ensures Safe(w, n, least) && (least > 0 ==> !Safe(w, n, least - 1))
  {
    if d > 0 && Safe(w, n, d - 1) then Least(w, n, d - 1) else d
  }

  /** The longest chain of redirects from n. */
  ghost function Depth(w: World, n: Name): (depth: nat)
    requires Ends(w, n)
    ensures Safe(w, n, depth) && (depth > 0 ==> !Safe(w, n, depth - 1))
  {
    var d: nat :| Safe(w, n, d);
    Least(w, n, d)
  }

  lemma RedirectIsNearer(w: World, n: Name, m: Name)
    requires Ends(w, n) && Local(w, n).Redirect?
    requires m == Local(w, n).ns.domain1 || m == Local(w, n).ns.domain2
    ensures Ends(w, m) && Depth(w, m) < Depth(w, n)
  {
    var d := Depth(w, n);
    assert Safe(w, m, d - 1);
    if Depth(w, m) >= d {
      SafeDeeper(w, m, d - 1, Depth(w, m) - 1);
    }
  }

  /** The name reached after k redirects, when the coin falls as in coins. */
  function Chase(w: World, n: Name, coins: nat -> bool, k: nat): Name
  {
    if k == 0 then n
    else
      var m := Chase(w, n, coins, k - 1);
      match Local(w, m)
      case Redirect(ns) => if coins(k - 1) then ns.domain1 else ns.domain2
      case _ => m
  }

  /** Some fall of the coin leads from n to a pointer that was never set. */
  ghost predicate UnsetFrom(w: World, n: Name) {
    exists coins: nat -> bool, k: nat :: Local(w, Chase(w, n, coins, k)) == Undefined
  }

  /** Under some fall of the coin, redirects from n lead back to a name that was already met. */
  ghost predicate CycleFrom(w: World, n: Name) {
    exists coins: nat -> bool, i: nat, j: nat :: ReturnsTo(w, n, coins, i, j)
  }

  ghost predicate ReturnsTo(w: World, n: Name, coins: nat -> bool, i: nat, j: nat) {
    i < j && Local(w, Chase(w, n, coins, i)).Redirect? && Chase(w, n, coins, i) == Chase(w, n, coins, j)
  }

  /** While the recursion ends, each redirect on the way leaves fewer to come. */
  lemma {:induction false} DepthFalls(w: World, n: Name, coins: nat -> bool, i: nat, j: nat)
    requires Ends(w, n) && i <= j
    ensures var a, b := Chase(w, n, coins, i), Chase(w, n, coins, j);
            && Ends(w, a) && Ends(w, b) && Depth(w, b) <= Depth(w, a)
            && (i < j && Local(w, a).Redirect? ==> Depth(w, b) < Depth(w, a))
    decreases j
  {
    hide Ends, Local;
    if j > 0 {
      DepthFalls(w, n, coins, if i < j then i else j - 1, j - 1);
      var m := Chase(w, n, coins, j - 1);
      if Local(w, m).Redirect? {
        RedirectIsNearer(w, m, Chase(w, n, coins, j));
      }
    }
  }

  /** A fall of the coin that keeps away from every name whose redirects end. */
  ghost function LostName(w: World, n: Name, k: nat): Name {
    if k == 0 then n
    else
      match Local(w, LostName(w, n, k - 1))
      case Redirect(ns) => if Ends(w, ns.domain1) then ns.domain2 else ns.domain1
      case _ => LostName(w, n, k - 1)
  }

  ghost function LostCoin(w: World, n: Name, k: nat): bool {
    match Local(w, LostName(w, n, k))
    case Redirect(ns) => !Ends(w, ns.domain1)
    case _ => true
  }

  lemma BothEnd(w: World, m: Name)
    requires Local(w, m).Redirect? && Ends(w, Local(w, m).ns.domain1) && Ends(w, Local(w, m).ns.domain2)
    ensures Ends(w, m)
  {
    var ns := Local(w, m).ns;
    var d, e := Depth(w, ns.domain1), Depth(w, ns.domain2);
    SafeDeeper(w, ns.domain1, d, d + e);
    SafeDeeper(w, ns.domain2, e, d + e);
    assert Safe(w, m, d + e + 1);
  }

  lemma {:induction false} StaysLost(w: World, n: Name, k: nat)
    requires !Ends(w, n)
    ensures Chase(w, n, (j: nat) => LostCoin(w, n, j), k) == LostName(w, n, k)
    ensures !Ends(w, LostName(w, n, k))
  {
    hide Ends, Local;
    if k > 0 {
      StaysLost(w, n, k - 1);
      var m := LostName(w, n, k - 1);
      if Local(w, m).Redirect? && Ends(w, Local(w, m).ns.domain1) && Ends(w, Local(w, m).ns.domain2) {
        BothEnd(w, m);
      }
    }
  }

  /** The names a tree can redirect to: finitely many. */
  ghost function NsNames(node: Node): set<Name> {
    (match node.ns case Some(ns) => {ns.domain1, ns.domain2} case None => {}) +
    set i: int, m | 0 <= i < |node.children| && m in NsNames(node.children[i]) :: m
  }

  lemma {:induction false} RedirectsToNsName(node: Node, ws: seq<Word>)
    requires Find(node, ws).Redirect?
    ensures Find(node, ws).ns.domain1 in NsNames(node) && Find(node, ws).ns.domain2 in NsNames(node)
    decreases |ws|
  {
    var i := FirstIndex(node.children, ws[|ws| - 1]);
    var child := node.children[i];
    if |ws| > 1 {
      RedirectsToNsName(child, ws[..|ws| - 1]);
    } else {
      assert child.children[0].ns == Some(Find(node, ws).ns);
      assert NsNames(child.children[0]) <= NsNames(child);
    }
  }

  lemma LostRedirects(w: World, n: Name, coins: nat -> bool, k: nat)
    requires !Ends(w, Chase(w, n, coins, k)) && !UnsetFrom(w, n)
    ensures Local(w, Chase(w, n, coins, k)).Redirect?
    ensures Chase(w, n, coins, k + 1) in NsNames(w.root)
  {
    hide Find, NsNames, WordsOf;
    var m := Chase(w, n, coins, k);
    assert !Safe(w, m, 0) && Local(w, m) != Undefined;
    RedirectsToNsName(w.root, WordsOf(m));
  }

  /** A name whose recursion does not end redirects for ever, among finitely many names. */
  lemma LostReturns(w: World, n: Name) returns (coins: nat -> bool, i: nat, j: nat)
    requires !Ends(w, n) && !UnsetFrom(w, n)
    ensures ReturnsTo(w, n, coins, i, j)
  {
    hide Ends, Local, NsNames, UnsetFrom, LostCoin, Chase;
    coins := (k: nat) => LostCoin(w, n, k);
    var met := (k: nat) => Chase(w, n, coins, k + 1);
    forall k: nat
      ensures met(k) in NsNames(w.root)
    {
      StaysLost(w, n, k);
      LostRedirects(w, n, coins, k);
    }
    i, j := SomeValueTwice(met, NsNames(w.root));
    i, j := i + 1, j + 1;
    StaysLost(w, n, i);
    LostRedirects(w, n, coins, i);
  }

  /** Resolution from n ends under every fall of the coin exactly when no redirects from n come
      back to a name already met, and none leads to an unset pointer. */
  lemma EndsExactlyWithoutCycle(w: World, n: Name)
    ensures Ends(w, n) <==> !CycleFrom(w, n) && !UnsetFrom(w, n)
  {
    if Ends(w, n) {
      if coins: nat -> bool, k: nat :| Local(w, Chase(w, n, coins, k)) == Undefined {
        DepthFalls(w, n, coins, k, k);
        assert false;
      }
      if coins: nat -> bool, i: nat, j: nat :| ReturnsTo(w, n, coins, i, j) {
        DepthFalls(w, n, coins, i, j);
        assert false;
      }
    } else if !UnsetFrom(w, n) {
      var coins, i, j := LostReturns(w, n);
    }
  }

  /** Hence the rank that makes the recursion terminate: without cycle and unset pointer, the
      longest chain of redirects still to come falls at every redirect. */
  lemma RankFromAcyclicity(w: World, n: Name, m: Name)
    requires !CycleFrom(w, n) && !UnsetFrom(w, n) && Local(w, n).Redirect?
    requires m == Local(w, n).ns.domain1 || m == Local(w, n).ns.domain2
    ensures Ends(w, n) && Ends(w, m) && Depth(w, m) < Depth(w, n)
  {
    EndsExactlyWithoutCycle(w, n);
    RedirectIsNearer(w, n, m);
  }

  ghost predicate Comes(w: World, n: Name, coins: nat -> bool) {
    exists k: nat :: Local(w, Chase(w, n, coins, k)).Found? || Local(w, Chase(w, n, coins, k)).Missing?
  }

  /** What ending means: under every fall of the coin a name is reached that has a record, or that
      is not there. */
  lemma EndsComes(w: World, n: Name)
    ensures (forall coins: nat -> bool :: Comes(w, n, coins)) <==> Ends(w, n)
  {
    if Ends(w, n) {
      forall coins: nat -> bool
        ensures Comes(w, n, coins)
      {
        SafeComes(w, n, coins, 0, Depth(w, n));
      }
    } else {
      var coins := (k: nat) => LostCoin(w, n, k);
      forall k: nat
        ensures !Ends(w, Chase(w, n, coins, k))
      {
        StaysLost(w, n, k);
      }
      forall k: nat
        ensures !Local(w, Chase(w, n, coins, k)).Found? && !Local(w, Chase(w, n, coins, k)).Missing?
      {
        assert !Safe(w, Chase(w, n, coins, k), 0);
      }
      assert !Comes(w, n, coins);
    }
  }

  lemma {:induction false} SafeComes(w: World, n: Name, coins: nat -> bool, k: nat, depth: nat)
    requires Safe(w, Chase(w, n, coins, k), depth)
    ensures Comes(w, n, coins)
    decreases depth
  {
    if Local(w, Chase(w, n, coins, k)).Redirect? {
      SafeComes(w, n, coins, k + 1, depth - 1);
    }
  }
}
