/** `extractWordsFromDomain` and `getCharArraySize` of DNS_server/trie.c: a dotted name cut into
    words by strtok, in an array closed by NULL. */
module Words {
  import opened Bytes
  import opened Names

  type Word = seq<byte>

  /** strtok never returns an empty token. */
  function NonEmpty(ls: seq<Label>): (ws: seq<Word>)
    ensures |ws| <= |ls|
    ensures forall w | w in ws :: w in ls && w != []
  {
    if ls == [] then []
    else if ls[0] == [] then NonEmpty(ls[1..])
    else [ls[0]] + NonEmpty(ls[1..])
  }

  /** The words of a name: its labels, empty ones skipped. */
  function WordsOf(domain: seq<byte>): seq<Word> {
    NonEmpty(Split(domain))
  }

  function Dots(s: seq<byte>): nat {
    if s == [] then 0 else Dots(s[..|s| - 1]) + if s[|s| - 1] == DOT then 1 else 0
  }

  lemma {:induction false} SplitLength(s: seq<byte>)
    ensures |Split(s)| == Dots(s) + 1
  {
    if s != [] {
      SplitLength(s[..|s| - 1]);
    }
  }

  lemma {:induction false} NonEmptyAppend(a: seq<Label>, b: seq<Label>)
    ensures NonEmpty(a + b) == NonEmpty(a) + NonEmpty(b)
  {
    if a == [] {
      assert a + b == b;
    } else {
      assert (a + b)[1..] == a[1..] + b;
      NonEmptyAppend(a[1..], b);
    }
  }

  /** One more byte: a new label after a dot, otherwise a longer last label. */
  function Snoc(ls: seq<Label>, c: byte): seq<Label>
    requires ls != []
  {
    if c == DOT then ls + [[]] else ls[..|ls| - 1] + [ls[|ls| - 1] + [c]]
  }

  lemma SplitSnoc(s: seq<byte>, c: byte)
    ensures Split(s + [c]) == Snoc(Split(s), c)
  {
  }

  lemma SnocOfSum(ls: seq<Label>, ms: seq<Label>, c: byte)
    requires ms != []
    ensures Snoc(ls + ms, c) == ls + Snoc(ms, c)
  {
  }

  /** A dot separates the labels before it from the labels after it. */
  lemma {:induction false} SplitAtDot(a: seq<byte>, b: seq<byte>)
    ensures Split(a + [DOT] + b) == Split(a) + Split(b)
  {
    if b == [] {
      assert a + [DOT] + b == a + [DOT] && Split(b) == [[]];
      SplitSnoc(a, DOT);
    } else {
      hide Split, Snoc;
      var b', c := b[..|b| - 1], b[|b| - 1];
      assert b == b' + [c] && a + [DOT] + b == a + [DOT] + b' + [c];
      SplitAtDot(a, b');
      SplitSnoc(b', c);
      SplitSnoc(a + [DOT] + b', c);
      SnocOfSum(Split(a), Split(b'), c);
    }
  }

  lemma WordsAtDot(a: seq<byte>, b: seq<byte>)
    ensures WordsOf(a + [DOT] + b) == WordsOf(a) + WordsOf(b)
  {
    SplitAtDot(a, b);
    NonEmptyAppend(Split(a), Split(b));
  }

  lemma WordsOfToken(t: seq<byte>)
    requires DOT !in t
    ensures WordsOf(t) == if t == [] then [] else [t]
  {
    assert Split([]) == [[]];
    SplitTail([], t);
    assert [] + t == t;
    assert Split(t) == [t];
  }

  /** The words still to come: the token in hand and those after it. */
  ghost function Pending(token: Option<Word>, s: seq<byte>, next: nat): seq<Word>
    requires next <= |s|
  {
    match token
    case None => []
    case Some(t) => [t] + WordsOf(s[next..])
  }

  /** strtok: dots are skipped, then everything up to the next dot or the end is the token. */
  method NextToken(s: seq<byte>, from: nat) returns (token: Option<Word>, next: nat)
    requires from <= |s|
    ensures from <= next <= |s|
    ensures token.Some? ==> next > from
    ensures WordsOf(s[from..]) == Pending(token, s, next)
  {
    var p := from;
    while p < |s| && s[p] == DOT
      invariant from <= p <= |s|
      invariant WordsOf(s[from..]) == WordsOf(s[p..])
    {
      assert s[p..] == [] + [DOT] + s[p + 1..];
      WordsOfToken([]);
      WordsAtDot([], s[p + 1..]);
      p := p + 1;
    }
    if p == |s| {
      WordsOfToken([]);
      return None, p;
    }
    var e := p + 1;
    while e < |s| && s[e] != DOT
      invariant p < e <= |s|
      invariant DOT !in s[p..e]
    {
      e := e + 1;
    }
    token := Some(s[p..e]);
    WordsOfToken(s[p..e]);
    if e == |s| {
      next := e;
      WordsOfToken([]);
      assert s[p..] == s[p..e];
    } else {
      next := e + 1;
      assert s[p..] == s[p..e] + [DOT] + s[next..];
      WordsAtDot(s[p..e], s[next..]);
    }
  }

  /** The array holds exactly these words, and NULL after them. */
  ghost predicate NullTerminated(words: array<Option<Word>>, ws: seq<Word>)
    reads words
  {
    && |ws| < words.Length
    && (forall k | 0 <= k < |ws| :: words[k] == Some(ws[k]))
    && words[|ws|] == None
  }

  /** One word more than there are dots. */
  method CountWords(domain: seq<byte>) returns (count: nat)
    ensures count == |Split(domain)| >= |WordsOf(domain)|
  {
    count := 0;
    for p := 0 to |domain|
      invariant count == Dots(domain[..p])
    {
      assert domain[..p + 1][..p] == domain[..p];
      if domain[p] == DOT {
        count := count + 1;
      }
    }
    assert domain[..|domain|] == domain;
    SplitLength(domain);
    count := count + 1;
  }

  /** extractWordsFromDomain: room for one word more than there are dots, and for the NULL. */
  method ExtractWords(domain: seq<byte>) returns (words: array<Option<Word>>)
    ensures fresh(words) && NullTerminated(words, WordsOf(domain))
  {
    hide WordsOf, Pending;
    var wordCount := CountWords(domain);
    words := new Option<Word>[wordCount + 1](_ => None);
    var i := 0;
    ghost var ws: seq<Word> := [];
    var token, next := NextToken(domain, 0);
    assert domain[0..] == domain;
    while token.Some?
      invariant i == |ws| && next <= |domain|
      invariant WordsOf(domain) == ws + Pending(token, domain, next)
      invariant forall k | 0 <= k < i :: words[k] == Some(ws[k])
      decreases |domain| - next, token.Some?
    {
      OneWordStored(ws, token, domain, next);
      words[i] := token;
      ws := ws + [token.value];
      i := i + 1;
      token, next := NextToken(domain, next);
    }
    NoWordLeft(ws, domain, next);
    words[i] := None;
  }

  lemma OneWordStored(ws: seq<Word>, token: Option<Word>, s: seq<byte>, next: nat)
    requires token.Some? && next <= |s|
    ensures ws + Pending(token, s, next) == ws + [token.value] + WordsOf(s[next..])
    ensures |ws + Pending(token, s, next)| > |ws|
  {
  }

  lemma NoWordLeft(ws: seq<Word>, s: seq<byte>, next: nat)
    requires next <= |s|
    ensures ws + Pending(None, s, next) == ws
  {
  }

  method ArraySize(words: array<Option<Word>>, ghost ws: seq<Word>) returns (count: nat)
    requires NullTerminated(words, ws)
    ensures count == |ws|
  {
    count := 0;
    while words[count] != None
      invariant count <= |ws|
      invariant words[|ws|] == None
      decreases |ws| - count
    {
      count := count + 1;
    }
  }

  /** The splitter of the trie and the labels of the wire agree exactly on names without empty
      labels. */
  lemma {:induction false} NonEmptyAll(ls: seq<Label>)
    ensures NonEmpty(ls) == ls <==> [] !in ls
  {
    if ls != [] {
      NonEmptyAll(ls[1..]);
      assert ls == [ls[0]] + ls[1..];
      if NonEmpty(ls) == ls {
        assert ls[0] in ls && NonEmpty(ls)[0] == ls[0];
        assert NonEmpty(ls)[0] in NonEmpty(ls);
        assert ls[1..] == NonEmpty(ls)[1..];
      }
    }
  }

  lemma WordsAreLabels(name: seq<byte>)
    ensures WordsOf(name) == Split(name) <==> [] !in Split(name)
  {
    NonEmptyAll(Split(name));
  }

  /** For well-formed names: the wire form is the concatenation of the length-prefixed words and a
      zero, and the words joined by dots are the name again. */
  lemma SplittersAgree(name: seq<byte>)
    requires WellFormed(name)
    ensures Encoded(WordsOf(name)) == Encoded(Split(name))
    ensures Dotted(WordsOf(name)) == name
  {
    WordsAreLabels(name);
    DottedSplit(name);
  }
}
