/** `dns_encode_name` of DNS_server/dns_server.c, and the round trip through `dns_read_name`. */
module NameWriter {
  import opened Bytes
  import opened Names
  import opened NameReader

  lemma PrefixedSnoc(init: seq<Label>, last: Label)
    ensures Prefixed(init + [last]) == Prefixed(init) + [(|last| % 0x100) as byte] + last
  {
    PrefixedAppend(init, [last]);
    assert Prefixed([last]) == [(|last| % 0x100) as byte] + last;
  }

  /** The labels of `done` that a dot has closed, and the one still open. */
  function Closed(done: seq<byte>): seq<Label> {
    var ls := Split(done);
    ls[..|ls| - 1]
  }

  function Open(done: seq<byte>): Label {
    var ls := Split(done);
    ls[|ls| - 1]
  }

  lemma DotCloses(done: seq<byte>)
    ensures Closed(done + [DOT]) == Split(done) == Closed(done) + [Open(done)]
    ensures Open(done + [DOT]) == []
    ensures Prefixed(Closed(done + [DOT])) == Prefixed(Closed(done)) + [(|Open(done)| % 0x100) as byte] + Open(done)
  {
    assert (done + [DOT])[..|done|] == done;
    PrefixedSnoc(Closed(done), Open(done));
  }

  lemma ByteExtends(done: seq<byte>, c: byte)
    requires c != DOT
    ensures Closed(done + [c]) == Closed(done) && Open(done + [c]) == Open(done) + [c]
  {
  }

  lemma StoreLength(front: seq<byte>, x: byte, open: seq<byte>, rest: seq<byte>, y: byte)
    ensures (front + [x] + open + rest)[|front| := y] == front + [y] + open + rest
  {
  }

  lemma StoreByte(front: seq<byte>, before: seq<byte>, next: nat, c: byte)
    requires next < |before|
    ensures (front + before[next..])[|front| := c] == front + [c] + before[next + 1..]
  {
  }

  lemma OpenLabelAt(front: seq<byte>, before: seq<byte>, next: nat)
    requires next < |before|
    ensures front + before[next..] == front + [before[next]] + [] + before[next + 1..]
  {
  }

  /** The buffer's value once `done` is copied: `front` is everything before the open label's
      length byte, `x` what that byte holds until a dot or the end of the string settles it. */
  ghost predicate Copied(buf: seq<byte>, before: seq<byte>, at: nat, done: seq<byte>, front: seq<byte>, x: byte) {
    && at + 1 + |done| <= |before|
    && front == before[..at] + Prefixed(Closed(done))
    && |front| + |Open(done)| == at + |done|
    && buf == front + [x] + Open(done) + before[at + 1 + |done|..]
  }

  lemma NothingCopied(before: seq<byte>, at: nat)
    requires at < |before|
    ensures Copied(before, before, at, [], before[..at], before[at])
  {
  }

  /** The dot branch: the length byte is settled, and the next byte becomes the new one. */
  lemma AfterDot(buf: seq<byte>, before: seq<byte>, at: nat, done: seq<byte>, front: seq<byte>, x: byte)
    requires Copied(buf, before, at, done, front, x) && at + 1 + |done| < |before|
    ensures var y := (|Open(done)| % 0x100) as byte;
            && |front| < |buf|
            && Copied(buf[|front| := y], before, at, done + [DOT], front + [y] + Open(done), before[at + 1 + |done|])
    ensures |Open(done + [DOT])| == 0
  {
    var next, y := at + 1 + |done|, (|Open(done)| % 0x100) as byte;
    StoreLength(front, x, Open(done), before[next..], y);
    OpenLabelAt(front + [y] + Open(done), before, next);
    DotCloses(done);
    hide Split, Prefixed, Closed, Open;
    Associate(before[..at], Prefixed(Closed(done)), [y], Open(done));
    assert at + 1 + |done + [DOT]| == next + 1;
  }

  /** The other branch: the open label grows by one byte. */
  lemma AfterByte(buf: seq<byte>, before: seq<byte>, at: nat, done: seq<byte>, c: byte, front: seq<byte>, x: byte)
    requires Copied(buf, before, at, done, front, x) && at + 1 + |done| < |before| && c != DOT
    ensures at + 1 + |done| < |buf|
    ensures Copied(buf[at + 1 + |done| := c], before, at, done + [c], front, x)
    ensures |Open(done + [c])| == |Open(done)| + 1
  {
    var next := at + 1 + |done|;
    StoreByte(front + [x] + Open(done), before, next, c);
    ByteExtends(done, c);
    hide Split, Prefixed, Closed, Open;
    assert front + [x] + Open(done) + [c] == front + [x] + (Open(done) + [c]);
    assert at + 1 + |done + [c]| == next + 1;
  }

  /** dns_encode_name's loop. */
  method CopyLabels(buffer: array<byte>, at: nat, domain: seq<byte>)
    returns (ptr: nat, next: nat, labelLength: nat, total: nat, ghost front: seq<byte>, ghost x: byte)
    requires at + |domain| + 2 <= buffer.Length
    modifies buffer
    ensures next == at + 1 + |domain| && total == 1 + |domain|
    ensures ptr == |front| && labelLength == |Open(domain)|
    ensures Copied(buffer[..], old(buffer[..]), at, domain, front, x)
  {
    ghost var before := buffer[..];
    ptr, next := at, at + 1;
    total := 1;
    labelLength := 0;
    var i := 0;
    front, x := before[..at], before[at];
    NothingCopied(before, at);
    assert Split([]) == [[]] && domain[..0] == [];
    hide Split, Copied, Open;
    while i < |domain|
      invariant 0 <= i <= |domain|
      invariant next == at + 1 + i && total == 1 + i
      invariant ptr == |front| && labelLength == |Open(domain[..i])|
      invariant Copied(buffer[..], before, at, domain[..i], front, x)
    {
      ghost var done, was := domain[..i], buffer[..];
      assert domain[..i + 1] == done + [domain[i]];
      if domain[i] == DOT {
        AfterDot(was, before, at, done, front, x);
        Store(buffer, ptr, (labelLength % 0x100) as byte);
        CopiedNext(was, before, at, done, front, x);
        front, x := front + [(labelLength % 0x100) as byte] + Open(done), before[next];
        ptr := next;
        next := next + 1;
        labelLength := 0;
      } else {
        AfterByte(was, before, at, done, domain[i], front, x);
        Store(buffer, next, domain[i]);
        next := next + 1;
        labelLength := labelLength + 1;
      }
      total := total + 1;
      i := i + 1;
    }
    assert domain[..i] == domain;
  }

  lemma CopiedNext(buf: seq<byte>, before: seq<byte>, at: nat, done: seq<byte>, front: seq<byte>, x: byte)
    requires Copied(buf, before, at, done, front, x)
    ensures |front| + 1 + |Open(done)| == at + 1 + |done| && |buf| == |before|
  {
  }

  /** Writes the wire form of a dotted name at buffer[at..] and returns its length. The source
      copies any C string: empty labels and over-long ones are written as they come. */
  method EncodeName(buffer: array<byte>, at: nat, domain: seq<byte>) returns (total: nat)
    requires 0 !in domain && at + |domain| + 2 <= buffer.Length
    modifies buffer
    ensures total == |domain| + 2 == |Encoded(Split(domain))|
    ensures buffer[..] == old(buffer[..at]) + Encoded(Split(domain)) + old(buffer[at + |domain| + 2..])
  {
    ghost var before := buffer[..];
    var ptr, next, labelLength, length;
    ghost var front, x;
    ptr, next, labelLength, length, front, x := CopyLabels(buffer, at, domain);
    LastLength(buffer[..], before, at, domain, front, x);
    WireLength(domain);
    hide Split, Prefixed, Closed, Open;
    Store(buffer, ptr, (labelLength % 0x100) as byte);
    ClosingZero(before, at, Prefixed(Split(domain)), next);
    Store(buffer, next, 0);
    total := length + 1;
  }

  /** After the loop: the last length byte completes the labels. */
  lemma LastLength(buf: seq<byte>, before: seq<byte>, at: nat, domain: seq<byte>, front: seq<byte>, x: byte)
    requires Copied(buf, before, at, domain, front, x)
    ensures |front| < |buf| && |before[..at] + Prefixed(Split(domain))| == at + 1 + |domain|
    ensures buf[|front| := (|Open(domain)| % 0x100) as byte]
         == before[..at] + Prefixed(Split(domain)) + before[at + 1 + |domain|..]
  {
    var y := (|Open(domain)| % 0x100) as byte;
    DotCloses(domain);
    hide Split, Prefixed, Closed, Open;
    Associate(before[..at], Prefixed(Closed(domain)), [y], Open(domain));
    StoreLength(front, x, Open(domain), before[at + 1 + |domain|..], y);
  }

  /** And the closing zero completes the name. */
  lemma ClosingZero(before: seq<byte>, at: nat, prefixed: seq<byte>, next: nat)
    requires at + |prefixed| == next < |before|
    ensures (before[..at] + prefixed + before[next..])[next := 0]
         == before[..at] + (prefixed + [0]) + before[next + 1..]
  {
  }

  /** The wire form of a name is two bytes longer than the name. */
  lemma WireLength(name: seq<byte>)
    ensures |Encoded(Split(name))| == |name| + 2
  {
    SplitText(name);
    PrefixedLength(Split(name));
  }

  /** Encoding a readable name anywhere in a buffer and reading it back gives the name and the
      offset after the encoding. */
  lemma NameRoundTrip(data: seq<byte>, offset: word16, name: seq<byte>, maxLen: nat)
    requires Readable(Split(name)) && |name| + 1 < maxLen
    requires Holds(data, offset, Encoded(Split(name))) && offset + |name| + 2 < 0x1_0000
    ensures Settles(data, maxLen, Start(offset))
    ensures var r := Outcome(data, maxLen, Start(offset));
            r.Finished? && r.text == name + [DOT] && Shown(r.text) == name && r.total == offset + |name| + 2
    ensures Spells(data, offset, Split(name))
  {
    var ls := Split(name);
    WireLength(name);
    SplitText(name);
    EncodedSpells(data, offset, ls);
    ReadSpelled(data, maxLen, Start(offset), ls);
    assert [] + Text(ls) == name + [DOT];
    EncodedMeasure(data, offset, ls);
    MeasureAgrees(data, offset, maxLen);
    assert Outcome(data, maxLen, Start(offset)).text == name + [DOT];
  }

  /** The decoder gave back this name, and ended where the encoding ends. */
  ghost predicate ReadsBack(data: seq<byte>, offset: word16, name: seq<byte>, maxLen: nat) {
    && Settles(data, maxLen, Start(offset))
    && var r := Outcome(data, maxLen, Start(offset));
    && r.Finished? && Shown(r.text) == name && r.total == offset + |name| + 2
  }

  /** Exactly which names survive: those with every label between 1 and 191 bytes, and room for
      one byte more than the NUL. An empty name, a doubled or trailing dot, and a label whose
      length byte looks like a pointer or wraps to another length are all altered. */
  lemma RoundTripExactly(data: seq<byte>, offset: word16, name: seq<byte>, maxLen: nat)
    requires 1 <= maxLen
    requires Holds(data, offset, Encoded(Split(name))) && offset + |name| + 2 < 0x1_0000
    ensures ReadsBack(data, offset, name, maxLen) <==> Readable(Split(name)) && |name| + 1 < maxLen
  {
    hide Run, Outcome, Settles, Split, Encoded, Holds;
    if Readable(Split(name)) && |name| + 1 < maxLen {
      NameRoundTrip(data, offset, name, maxLen);
    }
    if ReadsBack(data, offset, name, maxLen) {
      OnlyReadableReadsBack(data, offset, name, maxLen);
    }
  }

  lemma OnlyReadableReadsBack(data: seq<byte>, offset: word16, name: seq<byte>, maxLen: nat)
    requires Holds(data, offset, Encoded(Split(name))) && offset + |name| + 2 < 0x1_0000
    requires ReadsBack(data, offset, name, maxLen)
    ensures Readable(Split(name)) && |name| + 1 < maxLen
  {
    hide Run, Outcome, Settles, Split, Text, Encoded, Holds, Measure, Measurable, Readable;
    var n := ReadsBackFacts(data, offset, name, maxLen);
    WireLength(name);
    if name == [] {
      EmptyNameMisread(data, offset);
      assert false;
    } else if !Readable(Split(name)) {
      SplitKeepsBytes(name);
      SplitText(name);
      Misread(data, maxLen, Start(offset), n, Split(name));
      assert false;
    }
  }

  lemma EmptyNameMisread(data: seq<byte>, pos: nat)
    requires Holds(data, pos, Encoded(Split([]))) && Measurable(data, pos)
    ensures Measure(data, pos) == 1
  {
    assert Encoded(Split([])) == [0, 0];
    HoldsAt(data, pos, [0, 0], 0);
  }

  lemma ReadsBackFacts(data: seq<byte>, offset: word16, name: seq<byte>, maxLen: nat) returns (n: nat)
    requires ReadsBack(data, offset, name, maxLen) && offset + |name| + 2 < 0x1_0000
    ensures Run(data, maxLen, Start(offset), n).Finished?
    ensures |name| > 0 ==> |name| + 1 < maxLen && Run(data, maxLen, Start(offset), n).text == name + [DOT]
    ensures Measurable(data, offset) && Measure(data, offset) >= |name| + 2
  {
    n :| Settled(Run(data, maxLen, Start(offset), n));
    OutcomeIs(data, maxLen, Start(offset), n);
    FinishedText(data, maxLen, Start(offset), n);
    MeasureAgrees(data, offset, maxLen);
  }

  /** Whatever the reader accepts ends in a dot and leaves a byte to spare. */
  lemma {:induction false} FinishedText(data: seq<byte>, maxLen: nat, w: Walk, n: nat)
    requires w.Reading? && Run(data, maxLen, w, n).Finished?
    ensures var t := Run(data, maxLen, w, n).text;
            t == w.text || (t != [] && t[|t| - 1] == DOT && |t| < maxLen)
    decreases n
  {
    var v := Step(data, maxLen, w);
    if v.Reading? {
      FinishedText(data, maxLen, v, n - 1);
    } else {
      RunFixed(data, maxLen, v, n - 1);
    }
  }

  /** What has been written stays. */
  lemma {:induction false} RunKeepsText(data: seq<byte>, maxLen: nat, w: Walk, n: nat)
    requires w.Reading? && Run(data, maxLen, w, n).Finished?
    ensures w.text <= Run(data, maxLen, w, n).text
    decreases n
  {
    hide Run, Step;
    StepInside(data, maxLen, w, n);
    StepCases(data, maxLen, w);
    if Step(data, maxLen, w).Reading? {
      RunKeepsText(data, maxLen, Step(data, maxLen, w), n - 1);
    }
  }

  /** At an unreadable label the reader stops early, or jumps away, or (when the length wrapped to
      another) puts a dot into the middle of the label. */
  lemma {:induction false} Misread(data: seq<byte>, maxLen: nat, w: Walk, n: nat, ls: seq<Label>)
    requires w.Reading? && Run(data, maxLen, w, n).Finished? && Measurable(data, w.pos)
    requires Holds(data, w.pos, Encoded(ls)) && !Readable(ls)
    requires forall l, c | l in ls && c in l :: c != DOT
    ensures Run(data, maxLen, w, n).text != w.text + Text(ls) || Measure(data, w.pos) < |Encoded(ls)|
    decreases n
  {
    hide Run, Step, Text, Holds, Prefixed, Advance;
    var l := ls[0];
    FirstByte(data, w.pos, ls);
    StepInside(data, maxLen, w, n);
    StepCases(data, maxLen, w);
    TextHead(w.text, ls);
    var v := Step(data, maxLen, w);
    if ReadableLabel(l) {
      PrefixedHead(data, w.pos, ls, [0]);
      assert ls == [l] + ls[1..];
      Misread(data, maxLen, v, n - 1, ls[1..]);
    } else if 0 < data[w.pos] < 192 {
      var length, r := data[w.pos] as nat, Run(data, maxLen, w, n).text;
      RunKeepsText(data, maxLen, v, n - 1);
      assert v.text[|w.text| + length] == r[|w.text| + length] == DOT;
      assert (w.text + l + [DOT] + Text(ls[1..]))[|w.text| + length] == l[length];
      assert l in ls && l[length] in l;
    }
  }

  lemma FirstByte(data: seq<byte>, pos: nat, ls: seq<Label>)
    requires ls != [] && Holds(data, pos, Encoded(ls))
    ensures pos < |data| && data[pos] as nat == |ls[0]| % 0x100 && |Encoded(ls)| >= |ls[0]| + 2
  {
    HoldsAt(data, pos, Encoded(ls), 0);
  }

  /** Two different readable names have different encodings, neither a prefix of the other. */
  lemma WireInjective(a: seq<byte>, b: seq<byte>)
    requires Readable(Split(a)) && Readable(Split(b))
    requires Encoded(Split(a)) <= Encoded(Split(b))
    ensures a == b
  {
    EncodedPrefixFree(Split(a), Split(b));
    DottedSplit(a);
    DottedSplit(b);
  }
}
