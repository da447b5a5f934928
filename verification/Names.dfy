/** Domain names as label sequences, as dotted text, and in the wire format of RFC 1035. */
module Names {
  import opened Bytes

  type Label = seq<byte>

  /** The labels of a dotted name: the text cut at every dot. */
  function Split(s: seq<byte>): (ls: seq<Label>)
    ensures ls != []
  {
    if s == [] then [[]]
    else
      var ls := Split(s[..|s| - 1]);
      var c := s[|s| - 1];
      if c == DOT then ls + [[]]
      else ls[..|ls| - 1] + [ls[|ls| - 1] + [c]]
  }

  /** Every label followed by a dot: what the reader's buffer holds before it drops the last dot. */
  function Text(ls: seq<Label>): seq<byte> {
    if ls == [] then [] else ls[0] + [DOT] + Text(ls[1..])
  }

  /** The text without its last dot: what the caller gets. */
  function Shown(text: seq<byte>): seq<byte> {
    if text == [] then [] else text[..|text| - 1]
  }

  function Dotted(ls: seq<Label>): seq<byte> {
    Shown(Text(ls))
  }

  /** Length-prefixed labels without the closing zero. The length is stored in one byte, so it is
      reduced modulo 256. */
  function Prefixed(ls: seq<Label>): seq<byte> {
    if ls == [] then [] else [(|ls[0]| % 0x100) as byte] + ls[0] + Prefixed(ls[1..])
  }

  function Encoded(ls: seq<Label>): seq<byte> {
    Prefixed(ls) + [0]
  }

  /** A label whose length byte the reader takes for a length. RFC 1035 allows only 1 to 63. */
  predicate ReadableLabel(l: Label) {
    1 <= |l| < 192
  }

  predicate Readable(ls: seq<Label>) {
    forall l | l in ls :: ReadableLabel(l)
  }

  /** RFC 1035 section 2.3.4, on dotted text: no NUL, labels of 1 to 63 bytes, 253 bytes in all. */
  predicate WellFormed(name: seq<byte>) {
    && 0 !in name
    && |name| <= 253
    && forall l | l in Split(name) :: 1 <= |l| <= 63
  }

  lemma {:induction false} TextAppend(a: seq<Label>, b: seq<Label>)
    ensures Text(a + b) == Text(a) + Text(b)
  {
    if a == [] {
      assert a + b == b;
    } else {
      assert (a + b)[1..] == a[1..] + b;
      TextAppend(a[1..], b);
    }
  }

  lemma {:induction false} PrefixedAppend(a: seq<Label>, b: seq<Label>)
    ensures Prefixed(a + b) == Prefixed(a) + Prefixed(b)
  {
    if a == [] {
      assert a + b == b;
    } else {
      assert (a + b)[1..] == a[1..] + b;
      PrefixedAppend(a[1..], b);
    }
  }

  lemma TextSnoc(init: seq<Label>, last: Label)
    ensures Text(init + [last]) == Text(init) + last + [DOT]
  {
    TextAppend(init, [last]);
    assert Text([last]) == last + [DOT];
  }

  /** Cutting at the dots and joining again gives the text back, whatever the text. */
  lemma {:induction false} SplitText(s: seq<byte>)
    ensures Text(Split(s)) == s + [DOT]
  {
    if s == [] {
      assert Split(s) == [[]];
    } else {
      var t, c := s[..|s| - 1], s[|s| - 1];
      var ls := Split(t);
      SplitText(t);
      assert s == t + [c];
      if c == DOT {
        TextSnoc(ls, []);
        hide Split, Text;
        assert Text(ls) + [] + [DOT] == t + [DOT] + [DOT];
      } else {
        TextOneMore(ls[..|ls| - 1], ls[|ls| - 1], c, t);
      }
    }
  }

  lemma TextOneMore(init: seq<Label>, last: Label, c: byte, t: seq<byte>)
    requires Text(init + [last]) == t + [DOT]
    ensures Text(init + [last + [c]]) == t + [c] + [DOT]
  {
    TextSnoc(init, last);
    TextSnoc(init, last + [c]);
    hide Text;
    assert Text(init) + last == (Text(init) + last + [DOT])[..|t|] == (t + [DOT])[..|t|] == t;
    assert Text(init) + (last + [c]) == t + [c];
  }

  lemma DottedSplit(s: seq<byte>)
    ensures Dotted(Split(s)) == s
  {
    SplitText(s);
  }

  /** Labels without dots survive joining and cutting. */
  lemma {:induction false} SplitDotted(ls: seq<Label>)
    requires ls != [] && forall l | l in ls :: DOT !in l
    ensures Split(Dotted(ls)) == ls
  {
    var init, last := ls[..|ls| - 1], ls[|ls| - 1];
    assert ls == init + [last];
    TextSnoc(init, last);
    assert Dotted(ls) == Text(init) + last;
    SplitTail(Text(init), last);
    if init != [] {
      SplitDotted(init);
      TextEndsInDot(init);
      assert Text(init)[..|Text(init)| - 1] == Dotted(init);
      assert Split(Text(init)) == init + [[]];
    }
    assert [] + last == last;
  }

  lemma {:induction false} TextEndsInDot(ls: seq<Label>)
    requires ls != []
    ensures Text(ls) != [] && Text(ls)[|Text(ls)| - 1] == DOT
  {
    if |ls| > 1 {
      TextEndsInDot(ls[1..]);
    }
  }

  /** A dot-free run after text that ends a label makes exactly one more label. */
  lemma {:induction false} SplitTail(s: seq<byte>, run: seq<byte>)
    requires DOT !in run
    ensures var ls := Split(s);
            Split(s + run) == ls[..|ls| - 1] + [ls[|ls| - 1] + run]
  {
    var ls := Split(s);
    if run == [] {
      assert s + run == s;
      assert ls[|ls| - 1] + run == ls[|ls| - 1];
    } else {
      var init, c := run[..|run| - 1], run[|run| - 1];
      assert c in run;
      SplitTail(s, init);
      assert (s + run)[..|s + run| - 1] == s + init;
      assert init + [c] == run;
      assert (ls[|ls| - 1] + init) + [c] == ls[|ls| - 1] + run;
    }
  }

  /** Every byte but the dots lands in a label, so a name without NUL has labels without NUL. */
  lemma {:induction false} SplitKeepsBytes(s: seq<byte>)
    ensures forall l, c | l in Split(s) && c in l :: c in s && c != DOT
  {
    if s != [] {
      SplitKeepsBytes(s[..|s| - 1]);
      assert s == s[..|s| - 1] + [s[|s| - 1]];
    }
  }

  /** Each dot becomes a length byte; one more length byte comes first. */
  lemma {:induction false} PrefixedLength(ls: seq<Label>)
    ensures |Prefixed(ls)| == |Text(ls)|
  {
    if ls != [] {
      PrefixedLength(ls[1..]);
    }
  }
}
