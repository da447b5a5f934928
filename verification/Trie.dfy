/** The label trie of DNS_server/trie.c: how zones are turned into branches, and the walk inside
    `retriveValue`. A zone is given as data (its labels, its records, its two name servers); the
    scripts that read zone files are not part of this model. */
module Trie {
  import opened Bytes
  import opened Words

  datatype NameServers = NameServers(domain1: seq<byte>, domain2: seq<byte>)

  /** A record's value pointer may be NULL; only the "@" node of a zone has name servers. */
  datatype Node = Node(label_: Word, children: seq<Node>, records: seq<Option<Value>>, ns: Option<NameServers>)

  datatype Host = Host(name: Word, value: Value)

  datatype Zone = Zone(labels: seq<Word>, hosts: seq<Host>, ns: NameServers)

  /** How a walk ends. Undefined: the source would follow a pointer that was never set. */
  datatype Answer = Found(value: Value) | Redirect(ns: NameServers) | Missing | Undefined

  // ---- The walk ----

  function FirstValue(records: seq<Option<Value>>): Option<Value> {
    if records == [] then None
    else if records[0].Some? then records[0]
    else FirstValue(records[1..])
  }

  /** The first child with the label, in order. */
  function FirstChild(children: seq<Node>, w: Word): Option<Node> {
    if children == [] then None
    else if children[0].label_ == w then Some(children[0])
    else FirstChild(children[1..], w)
  }

  /** The node where the last word matched: a record there, or else the zone's name servers, which
      the source takes from its first child. */
  function AtEnd(node: Node): Answer {
    match FirstValue(node.records)
    case Some(v) => Found(v)
    case None =>
      if node.children != [] && node.children[0].ns.Some? then Redirect(node.children[0].ns.value) else Undefined
  }

  /** What the walk for these words ends with; the last word is matched first. Without any word the
      source compares the first label with whatever lies before its array. */
  function Find(node: Node, ws: seq<Word>): Answer
    decreases |ws|
  {
    if ws == [] then (if node.children == [] then Missing else Undefined)
    else
      match FirstChild(node.children, ws[|ws| - 1])
      case None => Missing
      case Some(child) => if |ws| == 1 then AtEnd(child) else Find(child, ws[..|ws| - 1])
  }

  lemma {:induction false} FirstChildFrom(children: seq<Node>, w: Word, i: nat)
    requires i < |children| && (forall j | 0 <= j < i :: children[j].label_ != w) && children[i].label_ == w
    ensures FirstChild(children, w) == Some(children[i])
  {
    if i > 0 {
      FirstChildFrom(children[1..], w, i - 1);
    }
  }

  lemma {:induction false} FirstChildNone(children: seq<Node>, w: Word)
    ensures FirstChild(children, w) == None <==> forall j | 0 <= j < |children| :: children[j].label_ != w
  {
    if children != [] {
      FirstChildNone(children[1..], w);
      forall j | 0 <= j < |children[1..]|
        ensures children[1..][j] == children[j + 1]
      {
      }
      if forall j | 0 <= j < |children[1..]| :: children[1..][j].label_ != w {
        forall j | 1 <= j < |children|
          ensures children[j].label_ != w
        {
          assert children[1..][j - 1].label_ != w;
        }
      }
    }
  }

  /** The records loop: the first value that is set, if any. */
  method FirstRecord(records: seq<Option<Value>>) returns (value: Option<Value>)
    ensures value == FirstValue(records)
    ensures match value
            case None => forall j | 0 <= j < |records| :: records[j] == None
            case Some(v) =>
              exists j | 0 <= j < |records| :: records[j] == value && forall i | 0 <= i < j :: records[i] == None
  {
    for j := 0 to |records|
      invariant FirstValue(records) == FirstValue(records[j..])
      invariant forall i | 0 <= i < j :: records[i] == None
    {
      if records[j].Some? {
        return records[j];
      }
    }
    value := None;
  }

  /** retriveValue's loop over the trie: a scan of the current node's children that starts again
      from the first child of the node just entered, and never goes back up. */
  method Walk(root: Node, words: array<Option<Word>>, last: int, ghost ws: seq<Word>) returns (answer: Answer)
    requires NullTerminated(words, ws) && last == |ws| - 1
    requires Find(root, ws) != Undefined
    ensures answer == Find(root, ws)
  {
    var node := root;
    var nrWords := last;
    var i := 0;
    assert ws[..nrWords + 1] == ws;
    while i < |node.children|
      invariant -1 <= nrWords < |ws|
      invariant nrWords == -1 ==> node.children == []
      invariant 0 <= i <= |node.children|
      invariant forall j | 0 <= j < i :: node.children[j].label_ != ws[nrWords]
      invariant Find(node, ws[..nrWords + 1]) == Find(root, ws)
      decreases nrWords, |node.children| - i
    {
      if Some(node.children[i].label_) == words[nrWords] {
        FirstChildFrom(node.children, ws[nrWords], i);
        assert ws[..nrWords + 1][..nrWords] == ws[..nrWords];
        nrWords := nrWords - 1;
        node := node.children[i];
        i := -1;
        var value := FirstRecord(node.records);
        if value.Some? && nrWords == -1 {
          return Found(value.value);
        }
        if nrWords == -1 {
          return Redirect(node.children[0].ns.value);
        }
      }
      i := i + 1;
    }
    if nrWords >= 0 {
      FirstChildNone(node.children, ws[nrWords]);
    }
    answer := Missing;
  }

  // ---- Paths: what the walk is meant to find ----

  /** Some path of children from node spells the words, last word first, and ends at target. */
  ghost predicate HasPath(node: Node, ws: seq<Word>, target: Node)
    decreases |ws|
  {
    if ws == [] then node == target
    else
      exists i | 0 <= i < |node.children| ::
        node.children[i].label_ == ws[|ws| - 1] && HasPath(node.children[i], ws[..|ws| - 1], target)
  }

  /** No two siblings anywhere in the tree share a label. */
  ghost predicate DistinctSiblings(node: Node) {
    && (forall i, j | 0 <= i < j < |node.children| :: node.children[i].label_ != node.children[j].label_)
    && (forall i | 0 <= i < |node.children| :: DistinctSiblings(node.children[i]))
  }

  /** The walk refines path lookup: with distinct siblings it ends as its target demands when there
      is a path, and is Missing exactly when there is none. */
  lemma {:induction false} FindFollowsPath(node: Node, ws: seq<Word>, target: Node)
    requires DistinctSiblings(node) && ws != [] && HasPath(node, ws, target)
    ensures Find(node, ws) == AtEnd(target)
    decreases |ws|
  {
    var w, rest := ws[|ws| - 1], ws[..|ws| - 1];
    var i :| 0 <= i < |node.children| && node.children[i].label_ == w && HasPath(node.children[i], rest, target);
    FirstChildFrom(node.children, w, i);
    if rest != [] {
      FindFollowsPath(node.children[i], rest, target);
    }
  }

  lemma {:induction false} PathOrMissing(node: Node, ws: seq<Word>) returns (target: Node)
    requires ws != [] && Find(node, ws) != Missing
    ensures HasPath(node, ws, target) && Find(node, ws) == AtEnd(target)
    decreases |ws|
  {
    var w, rest := ws[|ws| - 1], ws[..|ws| - 1];
    FirstChildNone(node.children, w);
    var i := FirstIndex(node.children, w);
    if rest == [] {
      target := node.children[i];
      assert HasPath(node.children[i], rest, target);
    } else {
      target := PathOrMissing(node.children[i], rest);
    }
  }

  lemma {:induction false} FirstIndex(children: seq<Node>, w: Word) returns (i: nat)
    requires FirstChild(children, w).Some?
    ensures i < |children| && children[i].label_ == w && FirstChild(children, w) == Some(children[i])
  {
    if children[0].label_ == w {
      i := 0;
    } else {
      var k := FirstIndex(children[1..], w);
      i := k + 1;
    }
  }

  lemma WalkRefinesPathLookup(root: Node, ws: seq<Word>)
    requires DistinctSiblings(root) && ws != []
    ensures forall v :: Find(root, ws) == Found(v) <==>
                          exists t :: HasPath(root, ws, t) && FirstValue(t.records) == Some(v)
    ensures Find(root, ws) == Missing <==> !exists t :: HasPath(root, ws, t)
  {
    if Find(root, ws) != Missing {
      var t := PathOrMissing(root, ws);
      assert HasPath(root, ws, t) && Find(root, ws) == AtEnd(t);
    }
    forall t | HasPath(root, ws, t)
      ensures Find(root, ws) == AtEnd(t)
    {
      FindFollowsPath(root, ws, t);
    }
  }

  // ---- Building the trie ----

  const AT: Word := [64]                            // "@"
  const ROOT_LABEL: Word := [114, 111, 111, 116]    // "root"

  function HostNode(host: Host): Node {
    Node(host.name, [], [Some(host.value)], None)
  }

  function HostNodes(hosts: seq<Host>): (nodes: seq<Node>)
    ensures |nodes| == |hosts|
    ensures forall i | 0 <= i < |hosts| :: nodes[i] == HostNode(hosts[i])
  {
    if hosts == [] then [] else [HostNode(hosts[0])] + HostNodes(hosts[1..])
  }

  function TerminalNode(name: Word, zone: Zone): Node {
    Node(name, [Node(AT, [], [], Some(zone.ns))] + HostNodes(zone.hosts), [], None)
  }

  function NormalNode(name: Word): Node {
    Node(name, [], [], None)
  }

  /** The nodes of a branch from the last label to the first; the first label's node is the zone. */
  function BranchNodes(labels: seq<Word>, zone: Zone): (nodes: seq<Node>)
    ensures |nodes| == |labels|
  {
    if labels == [] then []
    else
      BranchNodes(labels[1..], zone) +
      [if |labels| == |zone.labels| then TerminalNode(labels[0], zone) else NormalNode(labels[0])]
  }

  /** Every later node is hung directly under the first, whatever the number of labels. */
  function Branch(zone: Zone): Node
    requires zone.labels != []
  {
    var nodes := BranchNodes(zone.labels, zone);
    nodes[0].(children := nodes[0].children + nodes[1..])
  }

  method CreateTerminalNode(name: Word, zone: Zone) returns (node: Node)
    ensures node == TerminalNode(name, zone)
  {
    node := Node(name, [], [], None);
    node := node.(children := node.children + [Node(AT, [], [], Some(zone.ns))]);
    var index := 0;
    while index < |zone.hosts|
      invariant 0 <= index <= |zone.hosts|
      invariant node == Node(name, [Node(AT, [], [], Some(zone.ns))] + HostNodes(zone.hosts)[..index], [], None)
    {
      node := node.(children := node.children + [HostNode(zone.hosts[index])]);
      index := index + 1;
    }
    assert HostNodes(zone.hosts)[..index] == HostNodes(zone.hosts);
  }

  method CreateBranch(zone: Zone) returns (branch: Node)
    requires zone.labels != []
    ensures branch == Branch(zone)
  {
    var names := zone.labels;
    var nodes: seq<Node> := [];
    var j := |names| - 1;
    while j >= 0
      invariant -1 <= j < |names|
      invariant nodes == BranchNodes(names[j + 1..], zone)
    {
      assert names[j..][1..] == names[j + 1..];
      if j != 0 {
        nodes := nodes + [NormalNode(names[j])];
      } else {
        var terminal := CreateTerminalNode(names[j], zone);
        nodes := nodes + [terminal];
      }
      j := j - 1;
    }
    assert names[0..] == names;
    branch := nodes[0];
    var i := 1;
    while i <= |names| - 1
      invariant 1 <= i <= |names|
      invariant branch == nodes[0].(children := nodes[0].children + nodes[1..i])
    {
      branch := branch.(children := branch.children + [nodes[i]]);
      assert nodes[1..i + 1] == nodes[1..i] + [nodes[i]];
      i := i + 1;
    }
    assert nodes[1..i] == nodes[1..];
  }

  /** createTrieROOT and the loop in main: one child per zone, and no merging of equal labels. */
  function Forest(zones: seq<Zone>): (root: Node)
    requires Labelled(zones)
    ensures |root.children| == |zones|
    ensures forall i | 0 <= i < |zones| :: root.children[i] == Branch(zones[i])
  {
    Node(ROOT_LABEL, seq(|zones|, i requires 0 <= i < |zones| => Branch(zones[i])), [], None)
  }

  method BuildForest(zones: seq<Zone>) returns (root: Node)
    requires Labelled(zones)
    ensures root == Forest(zones)
  {
    root := Node(ROOT_LABEL, [], [], None);
    for i := 0 to |zones|
      invariant root == Node(ROOT_LABEL, Forest(zones).children[..i], [], None)
    {
      var branch := CreateBranch(zones[i]);
      root := root.(children := root.children + [branch]);
    }
  }

  // ---- The trie as a flat table of host names ----

  /** Hosts the walk can reach: none behind the "@" node, and none behind another of its name with
      a different value. */
  ghost predicate ProperHosts(hosts: seq<Host>) {
    && (forall i, j | 0 <= i < j < |hosts| :: hosts[i].name == hosts[j].name ==> hosts[i].value == hosts[j].value)
    && (forall i | 0 <= i < |hosts| :: hosts[i].name != AT)
  }

  function HostAnswer(hosts: seq<Host>, name: Word): Answer {
    if hosts == [] then Missing
    else if hosts[0].name == name then Found(hosts[0].value)
    else HostAnswer(hosts[1..], name)
  }

  ghost predicate Labelled(zones: seq<Zone>) {
    forall i | 0 <= i < |zones| :: zones[i].labels != []
  }

  function LastLabel(z: Zone): Word
    requires z.labels != []
  {
    z.labels[|z.labels| - 1]
  }

  /** The labels of a zone between the first and the last. */
  function Middle(z: Zone): seq<Word> {
    if |z.labels| <= 2 then [] else z.labels[1..|z.labels| - 1]
  }

  /** Where the zone's own node is found: at its first label, directly under its last one. For
      zones of one or two labels that is the zone's name. */
  function Apex(z: Zone): (ws: seq<Word>)
    requires z.labels != []
    ensures ws != [] && ws[|ws| - 1] == LastLabel(z)
  {
    if |z.labels| == 1 then z.labels else [z.labels[0], LastLabel(z)]
  }

  /** The zone's own node stands behind the node of an equal middle label. */
  predicate Hidden(z: Zone)
    requires z.labels != []
  {
    z.labels[0] in Middle(z)
  }

  /** The queries that follow a pointer nobody set: a bare last label, unless it is the whole name;
      a middle label directly under the last one; and "@" under the zone. */
  predicate Unset(z: Zone, ws: seq<Word>)
    requires z.labels != []
  {
    || (|z.labels| >= 2 && ws == [LastLabel(z)])
    || (|ws| == 2 && ws[0] in Middle(z) && ws[1] == LastLabel(z))
    || (!Hidden(z) && ws == [AT] + Apex(z))
  }

  /** What a zone has to say about a name, read off its data. */
  function ZoneAnswer(z: Zone, ws: seq<Word>): Answer
    requires z.labels != []
  {
    if Unset(z, ws) then Undefined
    else if Hidden(z) then Missing
    else if ws == Apex(z) then Redirect(z.ns)
    else if |ws| == |Apex(z)| + 1 && ws[1..] == Apex(z) then HostAnswer(z.hosts, ws[0])
    else Missing
  }

  /** The first zone with the last word for its last label speaks, and no other. */
  ghost function FlatAnswer(zones: seq<Zone>, ws: seq<Word>): Answer
    requires Labelled(zones) && ws != []
  {
    if zones == [] then Missing
    else if LastLabel(zones[0]) == ws[|ws| - 1] then ZoneAnswer(zones[0], ws)
    else FlatAnswer(zones[1..], ws)
  }

  /** What follows once the walk has chosen this child. */
  function Enter(child: Node, ws: seq<Word>): Answer
    requires ws != []
  {
    if |ws| == 1 then AtEnd(child) else Find(child, ws[..|ws| - 1])
  }

  lemma {:induction false} HostLookup(hosts: seq<Host>, w: Word)
    ensures match FirstChild(HostNodes(hosts), w)
            case None => HostAnswer(hosts, w) == Missing
            case Some(node) => node.children == [] && HostAnswer(hosts, w) == AtEnd(node)
  {
    if hosts != [] {
      assert HostNodes(hosts)[1..] == HostNodes(hosts[1..]);
      HostLookup(hosts[1..], w);
    }
  }

  /** Inside a zone: the terminal node, the words before the zone's name still to match. */
  lemma TerminalFind(z: Zone, ws: seq<Word>)
    requires ws != [] && z.labels != []
    ensures Find(TerminalNode(z.labels[0], z), ws)
         == if |ws| > 1 then Missing else if ws[0] == AT then Undefined else HostAnswer(z.hosts, ws[0])
  {
    var node, w := TerminalNode(z.labels[0], z), ws[|ws| - 1];
    var at := Node(AT, [], [], Some(z.ns));
    assert node.children[1..] == HostNodes(z.hosts);
    HostLookup(z.hosts, w);
    assert FirstChild(node.children, w) == if w == AT then Some(at) else FirstChild(HostNodes(z.hosts), w);
    if |ws| > 1 {
      match FirstChild(node.children, w) {
        case None =>
        case Some(child) => assert FirstChild(child.children, ws[..|ws| - 1][|ws| - 2]) == None;
      }
    }
  }

  lemma OneLabelBranch(z: Zone)
    requires |z.labels| == 1
    ensures Branch(z) == TerminalNode(z.labels[0], z)
  {
    BranchNodeAt(z.labels, z, 0);
    assert BranchNodes(z.labels, z)[1..] == [];
    assert Branch(z).children == TerminalNode(z.labels[0], z).children;
  }

  lemma {:induction false} BranchNodeAt(labels: seq<Word>, zone: Zone, m: nat)
    requires m < |labels| <= |zone.labels|
    ensures BranchNodes(labels, zone)[m] ==
              var k := |labels| - 1 - m;
              if k == 0 && |labels| == |zone.labels| then TerminalNode(labels[0], zone) else NormalNode(labels[k])
  {
    if m < |labels| - 1 {
      BranchNodeAt(labels[1..], zone, m);
    }
  }

  /** The children of a branch: the middle labels from the last to the first, then the zone's own
      node. */
  lemma BranchChildren(z: Zone)
    requires |z.labels| >= 2
    ensures var n, branch := |z.labels|, Branch(z);
            && branch.label_ == LastLabel(z) && branch.records == [] && |branch.children| == n - 1
            && branch.children[n - 2] == TerminalNode(z.labels[0], z)
            && forall i | 0 <= i < n - 2 :: branch.children[i] == NormalNode(z.labels[n - 2 - i])
  {
    var nodes := BranchNodes(z.labels, z);
    BranchNodeAt(z.labels, z, 0);
    forall i | 0 <= i < |z.labels| - 1
      ensures Branch(z).children[i] == nodes[i + 1]
    {
    }
    forall m: nat | m < |z.labels|
      ensures nodes[m] == if m == |z.labels| - 1 then TerminalNode(z.labels[0], z)
                          else NormalNode(z.labels[|z.labels| - 1 - m])
    {
      BranchNodeAt(z.labels, z, m);
    }
  }

  /** Which child of a branch a word leads to. */
  lemma BranchChild(z: Zone, w: Word)
    requires |z.labels| >= 2
    ensures FirstChild(Branch(z).children, w)
         == if w in Middle(z) then Some(NormalNode(w))
            else if w == z.labels[0] then Some(TerminalNode(z.labels[0], z))
            else None
  {
    hide Branch;
    var n, children := |z.labels|, Branch(z).children;
    BranchChildren(z);
    if w in Middle(z) {
      var m: nat :| m < n - 2 && Middle(z)[m] == w;
      assert children[n - 3 - m].label_ == z.labels[m + 1] == w;
      var f := FirstIndexBefore(children, w, n - 3 - m);
    } else {
      forall i | 0 <= i < n - 2
        ensures children[i].label_ != w
      {
        assert Middle(z)[n - 3 - i] == z.labels[n - 2 - i];
      }
      if w == z.labels[0] {
        FirstChildFrom(children, w, n - 2);
      } else {
        FirstChildNone(children, w);
      }
    }
  }

  /** What the walk ends with once it has entered a zone's branch. */
  lemma BranchAnswers(z: Zone, ws: seq<Word>)
    requires z.labels != [] && ws != [] && ws[|ws| - 1] == LastLabel(z)
    ensures Enter(Branch(z), ws) == ZoneAnswer(z, ws)
  {
    hide Branch;
    if |z.labels| == 1 {
      OneLabelAnswers(z, ws);
    } else if |ws| == 1 {
      BranchChildren(z);
      assert ws == [LastLabel(z)];
    } else {
      BelowBranch(z, ws);
    }
  }

  lemma OneLabelAnswers(z: Zone, ws: seq<Word>)
    requires |z.labels| == 1 && ws != [] && ws[|ws| - 1] == LastLabel(z)
    ensures Enter(Branch(z), ws) == ZoneAnswer(z, ws)
  {
    hide Branch;
    OneLabelBranch(z);
    if |ws| == 1 {
      assert ws == z.labels;
    } else {
      TerminalFind(z, ws[..|ws| - 1]);
      assert |ws| == 2 ==> ws[1..] == z.labels && ws == [ws[0]] + z.labels;
    }
  }

  lemma BelowBranch(z: Zone, ws: seq<Word>)
    requires |z.labels| >= 2 && |ws| >= 2 && ws[|ws| - 1] == LastLabel(z)
    ensures Enter(Branch(z), ws) == ZoneAnswer(z, ws)
  {
    hide Branch, FirstChild;
    var rest := ws[..|ws| - 1];
    var w := rest[|rest| - 1];
    BranchChild(z, w);
    if |ws| == 2 {
      assert ws == [w, LastLabel(z)];
    } else {
      assert |ws| == 3 ==> ws[1..] == [w, LastLabel(z)] && ws == [ws[0]] + ws[1..];
      NoChildren(NormalNode(w), rest[..|rest| - 1]);
      TerminalFind(z, rest[..|rest| - 1]);
    }
  }

  lemma NoChildren(node: Node, ws: seq<Word>)
    requires node.children == [] && ws != []
    ensures Find(node, ws) == Missing
  {
  }

  ghost predicate DistinctTlds(zones: seq<Zone>)
    requires Labelled(zones)
  {
    forall i, j | 0 <= i < j < |zones| :: LastLabel(zones[i]) != LastLabel(zones[j])
  }

  /** No earlier zone has the same last label. */
  ghost predicate Visible(zones: seq<Zone>, i: nat)
    requires Labelled(zones) && i < |zones|
  {
    forall j | 0 <= j < i :: LastLabel(zones[j]) != LastLabel(zones[i])
  }

  lemma {:induction false} FlatFrom(zones: seq<Zone>, ws: seq<Word>, i: nat)
    requires Labelled(zones) && i < |zones| && Visible(zones, i)
    requires ws != [] && LastLabel(zones[i]) == ws[|ws| - 1]
    ensures FlatAnswer(zones, ws) == ZoneAnswer(zones[i], ws)
  {
    if i > 0 {
      FlatFrom(zones[1..], ws, i - 1);
    }
  }

  lemma {:induction false} FlatMissing(zones: seq<Zone>, ws: seq<Word>)
    requires Labelled(zones) && ws != [] && forall i | 0 <= i < |zones| :: LastLabel(zones[i]) != ws[|ws| - 1]
    ensures FlatAnswer(zones, ws) == Missing
  {
    if zones != [] {
      FlatMissing(zones[1..], ws);
    }
  }

  lemma ForestLabels(zones: seq<Zone>)
    requires Labelled(zones)
    ensures forall k | 0 <= k < |zones| :: Forest(zones).children[k].label_ == LastLabel(zones[k])
  {
    forall k | 0 <= k < |zones|
      ensures Forest(zones).children[k].label_ == LastLabel(zones[k])
    {
      BranchNodeAt(zones[k].labels, zones[k], 0);
    }
  }

  lemma FindEnters(root: Node, ws: seq<Word>, z: Zone)
    requires ws != [] && z.labels != [] && FirstChild(root.children, ws[|ws| - 1]) == Some(Branch(z))
    ensures Find(root, ws) == Enter(Branch(z), ws)
  {
  }

  lemma {:induction false} FirstIndexBefore(children: seq<Node>, w: Word, i: nat) returns (f: nat)
    requires i < |children| && children[i].label_ == w
    ensures f <= i && children[f].label_ == w && FirstChild(children, w) == Some(children[f])
    ensures forall j | 0 <= j < f :: children[j].label_ != w
  {
    if children[0].label_ == w {
      f := 0;
    } else {
      var g := FirstIndexBefore(children[1..], w, i - 1);
      f := g + 1;
      assert forall j | 1 <= j < f :: children[j] == children[1..][j - 1];
    }
  }

  /** Of the zones with that last label, the first. */
  lemma {:induction false} FirstVisible(zones: seq<Zone>, i: nat) returns (f: nat)
    requires Labelled(zones) && i < |zones|
    ensures f <= i && LastLabel(zones[f]) == LastLabel(zones[i]) && Visible(zones, f)
  {
    if Visible(zones, i) {
      f := i;
    } else {
      var j :| 0 <= j < i && LastLabel(zones[j]) == LastLabel(zones[i]);
      f := FirstVisible(zones, j);
    }
  }

  /** A query that ends in a visible zone's last label is answered by that zone. */
  lemma VisibleZoneAnswers(zones: seq<Zone>, ws: seq<Word>, i: nat)
    requires Labelled(zones) && i < |zones| && Visible(zones, i)
    requires ws != [] && ws[|ws| - 1] == LastLabel(zones[i])
    ensures Find(Forest(zones), ws) == ZoneAnswer(zones[i], ws)
  {
    hide Find, Branch, Enter, ZoneAnswer;
    ForestLabels(zones);
    FirstChildFrom(Forest(zones).children, ws[|ws| - 1], i);
    FindEnters(Forest(zones), ws, zones[i]);
    BranchAnswers(zones[i], ws);
  }

  /** For every list of zones, the walk over the trie answers every query exactly as a flat table
      read off the zones would. */
  lemma ForestIsFlatTable(zones: seq<Zone>, ws: seq<Word>)
    requires Labelled(zones) && ws != []
    ensures Find(Forest(zones), ws) == FlatAnswer(zones, ws)
  {
    hide Branch, ZoneAnswer, FlatAnswer;
    if i :| 0 <= i < |zones| && LastLabel(zones[i]) == ws[|ws| - 1] {
      var f := FirstVisible(zones, i);
      VisibleZoneAnswers(zones, ws, f);
      FlatFrom(zones, ws, f);
    } else {
      ForestLabels(zones);
      FirstChildNone(Forest(zones).children, ws[|ws| - 1]);
      FlatMissing(zones, ws);
    }
  }

  /** With different last labels the table is the union of the zones' tables, in any order. */
  lemma ForestIsUnion(zones: seq<Zone>, ws: seq<Word>)
    requires Labelled(zones) && DistinctTlds(zones) && ws != []
    ensures forall i | 0 <= i < |zones| && ZoneAnswer(zones[i], ws) != Missing ::
              Find(Forest(zones), ws) == ZoneAnswer(zones[i], ws)
    ensures (forall i | 0 <= i < |zones| :: ZoneAnswer(zones[i], ws) == Missing) ==> Find(Forest(zones), ws) == Missing
  {
    hide Find, Forest, ZoneAnswer;
    ForestIsFlatTable(zones, ws);
    forall i | 0 <= i < |zones| && ZoneAnswer(zones[i], ws) != Missing
      ensures Find(Forest(zones), ws) == ZoneAnswer(zones[i], ws)
    {
      ZoneAnswersItsOwn(zones[i], ws);
      VisibleZoneAnswers(zones, ws, i);
    }
    if FlatAnswer(zones, ws) != Missing {
      var i := FlatFirst(zones, ws);
    }
  }

  lemma {:induction false} FlatFirst(zones: seq<Zone>, ws: seq<Word>) returns (i: nat)
    requires Labelled(zones) && ws != [] && FlatAnswer(zones, ws) != Missing
    ensures i < |zones| && Visible(zones, i) && LastLabel(zones[i]) == ws[|ws| - 1]
    ensures FlatAnswer(zones, ws) == ZoneAnswer(zones[i], ws)
  {
    hide ZoneAnswer;
    if LastLabel(zones[0]) == ws[|ws| - 1] {
      i := 0;
    } else {
      var j := FlatFirst(zones[1..], ws);
      i := j + 1;
      assert forall k | 1 <= k < i :: zones[k] == zones[1..][k - 1];
    }
  }

  /** A zone says something only about queries that end in its last label. */
  lemma ZoneAnswersItsOwn(z: Zone, ws: seq<Word>)
    requires z.labels != [] && ZoneAnswer(z, ws) != Missing
    ensures ws != [] && ws[|ws| - 1] == LastLabel(z)
  {
    var named := [AT] + Apex(z);
    assert named[|named| - 1] == LastLabel(z);
  }

  lemma {:induction false} HostAnswerAt(hosts: seq<Host>, k: nat)
    requires ProperHosts(hosts) && k < |hosts|
    ensures HostAnswer(hosts, hosts[k].name) == Found(hosts[k].value)
  {
    if hosts[0].name != hosts[k].name {
      HostAnswerAt(hosts[1..], k - 1);
    }
  }

  /** The words of a host's full name. */
  function FullName(z: Zone, k: nat): seq<Word>
    requires k < |z.hosts|
  {
    [z.hosts[k].name] + z.labels
  }

  ghost predicate Resolves(zones: seq<Zone>, z: Zone, k: nat)
    requires k < |z.hosts| && Labelled(zones)
  {
    Find(Forest(zones), FullName(z, k)) == Found(z.hosts[k].value)
  }

  // ---- Zones of any depth ----

  /** No path from the node is longer than h. */
  ghost predicate HeightAtMost(node: Node, h: nat) {
    forall i | 0 <= i < |node.children| :: h > 0 && HeightAtMost(node.children[i], h - 1)
  }

  lemma {:induction false} TooDeep(node: Node, ws: seq<Word>, h: nat)
    requires HeightAtMost(node, h) && |ws| > h
    ensures Find(node, ws) == Missing
    decreases |ws|
  {
    var w := ws[|ws| - 1];
    if FirstChild(node.children, w).Some? {
      var i := FirstIndex(node.children, w);
      TooDeep(node.children[i], ws[..|ws| - 1], h - 1);
    }
  }

  lemma TerminalHeight(name: Word, z: Zone)
    ensures HeightAtMost(TerminalNode(name, z), 1)
  {
    var node := TerminalNode(name, z);
    forall i | 0 <= i < |node.children|
      ensures HeightAtMost(node.children[i], 0)
    {
      assert node.children[i].children == [];
    }
  }

  /** Every later node of a branch is hung under the first, so a branch is never deeper than a
      two-label zone's. */
  lemma BranchHeight(z: Zone)
    requires z.labels != []
    ensures HeightAtMost(Branch(z), 2)
  {
    var nodes := BranchNodes(z.labels, z);
    TerminalHeight(z.labels[0], z);
    BranchNodeAt(z.labels, z, 0);
    forall i | 0 <= i < |Branch(z).children|
      ensures HeightAtMost(Branch(z).children[i], 1)
    {
      if i < |nodes[0].children| {
        assert nodes[0].children[i].children == [];
      } else {
        BranchNodeAt(z.labels, z, i - |nodes[0].children| + 1);
      }
    }
  }

  /** The hosts of a zone of three or more labels are out of reach, whatever other zones there are. */
  lemma DeepZoneHidden(zones: seq<Zone>, i: nat, k: nat)
    requires Labelled(zones) && i < |zones| && |zones[i].labels| >= 3 && k < |zones[i].hosts|
    ensures Find(Forest(zones), FullName(zones[i], k)) == Missing
  {
    hide Branch;
    var root := Forest(zones);
    forall j | 0 <= j < |root.children|
      ensures HeightAtMost(root.children[j], 2)
    {
      BranchHeight(zones[j]);
    }
    assert HeightAtMost(root, 3);
    TooDeep(root, FullName(zones[i], k), 3);
  }

  /** A zone of at most two labels says nothing about the hosts of another with its last label. */
  lemma OtherZone(first: Zone, z: Zone, k: nat)
    requires 1 <= |first.labels| <= 2 && 1 <= |z.labels| <= 2 && k < |z.hosts|
    requires first.labels != z.labels && LastLabel(first) == LastLabel(z)
    ensures !ZoneAnswer(first, FullName(z, k)).Found?
  {
    var ws := FullName(z, k);
    assert ws[1..] == z.labels;
    assert Apex(first) == first.labels;
  }

  /** A zone whose last label an earlier zone has too is out of reach. */
  lemma SharedTldHides(zones: seq<Zone>, i: nat, j: nat, k: nat)
    requires forall f | 0 <= f < |zones| :: 1 <= |zones[f].labels| <= 2
    requires forall a, b | 0 <= a < b < |zones| :: zones[a].labels != zones[b].labels
    requires i < j < |zones| && LastLabel(zones[i]) == LastLabel(zones[j]) && k < |zones[j].hosts|
    ensures !Find(Forest(zones), FullName(zones[j], k)).Found?
  {
    hide Find, Forest, ZoneAnswer;
    var ws := FullName(zones[j], k);
    assert ws[|ws| - 1] == LastLabel(zones[j]);
    var f := FirstVisible(zones, i);
    VisibleZoneAnswers(zones, ws, f);
    OtherZone(zones[f], zones[j], k);
  }

  /** The words under which a host can be found. For zones of at most two labels that is the full
      name. */
  function HostName(z: Zone, k: nat): seq<Word>
    requires z.labels != [] && k < |z.hosts|
  {
    [z.hosts[k].name] + Apex(z)
  }

  lemma ApexIsName(z: Zone)
    requires 1 <= |z.labels| <= 2
    ensures Apex(z) == z.labels && !Hidden(z)
  {
  }

  /** What a query for a host of a visible zone gets. */
  lemma HostResolves(zones: seq<Zone>, i: nat, k: nat)
    requires Labelled(zones) && i < |zones| && Visible(zones, i) && !Hidden(zones[i]) && k < |zones[i].hosts|
    ensures Find(Forest(zones), HostName(zones[i], k))
         == if zones[i].hosts[k].name == AT then Undefined else HostAnswer(zones[i].hosts, zones[i].hosts[k].name)
  {
    hide Find, Forest, ZoneAnswer, HostAnswer;
    var ws := HostName(zones[i], k);
    assert ws[|ws| - 1] == LastLabel(zones[i]);
    VisibleZoneAnswers(zones, ws, i);
    OwnHost(zones[i], k);
  }

  lemma OwnHost(z: Zone, k: nat)
    requires z.labels != [] && !Hidden(z) && k < |z.hosts|
    ensures ZoneAnswer(z, HostName(z, k))
         == if z.hosts[k].name == AT then Undefined else HostAnswer(z.hosts, z.hosts[k].name)
  {
    var ws := HostName(z, k);
    assert ws[1..] == Apex(z) && ws[0] == z.hosts[k].name;
    assert ([AT] + Apex(z))[0] == AT;
  }

  ghost predicate AllResolve(zones: seq<Zone>, z: Zone)
    requires Labelled(zones)
  {
    forall k: nat | k < |z.hosts| :: Resolves(zones, z, k)
  }

  /** Where the last labels all differ: exactly which zones can be looked up. */
  lemma ZoneResolvesExactly(zones: seq<Zone>, i: nat)
    requires Labelled(zones) && DistinctTlds(zones) && i < |zones| && zones[i].hosts != []
    ensures AllResolve(zones, zones[i]) <==> |zones[i].labels| <= 2 && ProperHosts(zones[i].hosts)
  {
    hide Find, HostAnswer, Forest;
    var z := zones[i];
    if |z.labels| >= 3 {
      DeepZoneHidden(zones, i, 0);
      assert !Resolves(zones, z, 0);
    } else {
      forall k: nat | k < |z.hosts|
        ensures Resolves(zones, z, k) <==>
                  z.hosts[k].name != AT && HostAnswer(z.hosts, z.hosts[k].name) == Found(z.hosts[k].value)
      {
        ApexIsName(z);
        HostResolves(zones, i, k);
      }
      if ProperHosts(z.hosts) {
        forall k: nat | k < |z.hosts|
          ensures Resolves(zones, z, k)
        {
          HostAnswerAt(z.hosts, k);
        }
      }
      if AllResolve(zones, z) {
        assert forall k: nat | k < |z.hosts| :: Resolves(zones, z, k);
      }
    }
  }

  /** Exactly when every host of every zone can be found, for any list of zones: branches that
      share a last label are not merged and the walk never backtracks, so the last labels must all
      differ; a branch has no third level, so no zone may have a third label; and inside a zone no
      host may be called "@" or have a namesake with another value. */
  lemma HostsResolveExactly(zones: seq<Zone>)
    requires forall i | 0 <= i < |zones| :: zones[i].labels != [] && zones[i].hosts != []
    requires forall i, j | 0 <= i < j < |zones| :: zones[i].labels != zones[j].labels
    ensures (forall i | 0 <= i < |zones| :: AllResolve(zones, zones[i])) <==>
              && DistinctTlds(zones)
              && forall i | 0 <= i < |zones| :: |zones[i].labels| <= 2 && ProperHosts(zones[i].hosts)
  {
    hide Find, Forest, ProperHosts;
    if DistinctTlds(zones) {
      forall i | 0 <= i < |zones|
        ensures AllResolve(zones, zones[i]) <==> |zones[i].labels| <= 2 && ProperHosts(zones[i].hosts)
      {
        ZoneResolvesExactly(zones, i);
      }
    } else if i :| 0 <= i < |zones| && |zones[i].labels| >= 3 {
      DeepZoneHidden(zones, i, 0);
      assert !Resolves(zones, zones[i], 0);
    } else {
      var i, j :| 0 <= i < j < |zones| && LastLabel(zones[i]) == LastLabel(zones[j]);
      SharedTldHides(zones, i, j, 0);
      assert !Resolves(zones, zones[j], 0);
    }
  }
}
