/** `dns_read_name` and `util_measure_name` of DNS_server/dns_packet.c.

    The reader's loop is first a machine on values (`Walk`, `Step`, `Run`): the read position, the
    text written so far, whether a pointer has been followed, and the 16-bit running offset. The
    method `ReadName` is proved to compute exactly what the machine ends with; everything RFC 1035
    promises about names is then proved of the machine. */
module NameReader {
  import opened Bytes
  import opened Names
  import opened Pigeonhole

  datatype Walk =
    | Reading(pos: nat, text: seq<byte>, jumped: bool, total: word16)
    | Finished(text: seq<byte>, total: word16)
    | Overflowed(text: seq<byte>)
    | Astray  // the next byte lies outside the buffer, where the source's behaviour is undefined

  predicate IsPointer(b: byte) {
    b >= 192
  }

  /** The low six bits of the first byte and the eight of the second. */
  function Target(data: seq<byte>, p: nat): (t: nat)
    requires p + 1 < |data| && IsPointer(data[p])
    ensures t < 0x4000 && data[p] as int == 192 + t / 0x100 && data[p + 1] as int == t % 0x100
  {
    (data[p] as int - 192) * 0x100 + data[p + 1] as int
  }

  /** total_offset moves only until the first jump, and it is a uint16_t. */
  function Advance(total: word16, n: nat, jumped: bool): word16 {
    if jumped then total else (total + n) % 0x1_0000
  }

  function Step(data: seq<byte>, maxLen: nat, w: Walk): Walk {
    if !w.Reading? then w
    else if w.pos >= |data| then Astray
    else
      var b := data[w.pos];
      if b == 0 then Finished(w.text, Advance(w.total, 1, w.jumped))
      else if IsPointer(b) then
        if w.pos + 1 >= |data| then Astray
        else Reading(Target(data, w.pos), w.text, true, Advance(w.total, 2, w.jumped))
      else
        var length := b as nat;
        if |w.text| + length + 1 >= maxLen then Overflowed(w.text)
        else if w.pos + 1 + length > |data| then Astray
        else
          Reading(w.pos + 1 + length, w.text + data[w.pos + 1..w.pos + 1 + length] + [DOT],
                  w.jumped, Advance(w.total, 1 + length, w.jumped))
  }

  function Run(data: seq<byte>, maxLen: nat, w: Walk, n: nat): Walk
    decreases n
  {
    if n == 0 then w else Run(data, maxLen, Step(data, maxLen, w), n - 1)
  }

  function Start(offset: word16): Walk {
    Reading(offset, [], false, offset)
  }

  predicate Settled(w: Walk) {
    w.Finished? || w.Overflowed?
  }

  /** The loop ends, and ends without reading outside the buffer. */
  ghost predicate Settles(data: seq<byte>, maxLen: nat, w: Walk) {
    exists n: nat :: Settled(Run(data, maxLen, w, n))
  }

  ghost function Outcome(data: seq<byte>, maxLen: nat, w: Walk): (r: Walk)
    requires Settles(data, maxLen, w)
    ensures Settled(r)
  {
    var n: nat :| Settled(Run(data, maxLen, w, n));
    Run(data, maxLen, w, n)
  }

  lemma {:induction false} RunFixed(data: seq<byte>, maxLen: nat, w: Walk, n: nat)
    requires !w.Reading?
    ensures Run(data, maxLen, w, n) == w
    decreases n
  {
    if n > 0 {
      RunFixed(data, maxLen, w, n - 1);
    }
  }

  lemma {:induction false} RunAdd(data: seq<byte>, maxLen: nat, w: Walk, a: nat, b: nat)
    ensures Run(data, maxLen, w, a + b) == Run(data, maxLen, Run(data, maxLen, w, a), b)
    decreases a
  {
    if a > 0 {
      RunAdd(data, maxLen, Step(data, maxLen, w), a - 1, b);
    }
  }

  /** Once the machine stops it stays where it is, so its outcome does not depend on when we look. */
  lemma OutcomeIs(data: seq<byte>, maxLen: nat, w: Walk, n: nat)
    requires Settled(Run(data, maxLen, w, n))
    ensures Settles(data, maxLen, w) && Outcome(data, maxLen, w) == Run(data, maxLen, w, n)
  {
    var m: nat :| Settled(Run(data, maxLen, w, m)) && Run(data, maxLen, w, m) == Outcome(data, maxLen, w);
    if m <= n {
      RunAdd(data, maxLen, w, m, n - m);
      RunFixed(data, maxLen, Run(data, maxLen, w, m), n - m);
    } else {
      RunAdd(data, maxLen, w, n, m - n);
      RunFixed(data, maxLen, Run(data, maxLen, w, n), m - n);
    }
  }

  lemma OutcomeStep(data: seq<byte>, maxLen: nat, w: Walk)
    requires Settles(data, maxLen, Step(data, maxLen, w))
    ensures Settles(data, maxLen, w)
    ensures Outcome(data, maxLen, w) == Outcome(data, maxLen, Step(data, maxLen, w))
  {
    var n: nat :| Settled(Run(data, maxLen, Step(data, maxLen, w), n));
    OutcomeIs(data, maxLen, Step(data, maxLen, w), n);
    assert Run(data, maxLen, w, n + 1) == Run(data, maxLen, Step(data, maxLen, w), n);
    OutcomeIs(data, maxLen, w, n + 1);
  }

  lemma OutcomeNow(data: seq<byte>, maxLen: nat, w: Walk)
    requires Settled(w)
    ensures Settles(data, maxLen, w) && Outcome(data, maxLen, w) == w
  {
    assert Run(data, maxLen, w, 0) == w;
    OutcomeIs(data, maxLen, w, 0);
  }

  /** The memcpy of one label, and the dot after it. */
  method CopyLabel(dest: array<byte>, at: nat, data: seq<byte>, from: nat, length: nat,
                   ghost text: seq<byte>, ghost grown: seq<byte>, ghost before: seq<byte>)
    requires at + length + 1 <= dest.Length && from + length <= |data|
    requires |text| == at && |before| == dest.Length
    requires dest[..] == text + before[at..]
    requires grown == text + data[from..from + length] + [DOT]
    modifies dest
    ensures dest[..] == grown + before[|grown|..]
  {
    forall k | 0 <= k < length {
      dest[at + k] := data[from + k];
    }
    dest[at + length] := DOT;
  }

  /** One label of the loop: room is asked for, the label and its dot are copied, and the cursors
      move on. */
  method ReadLabel(dest: array<byte>, at: nat, data: seq<byte>, maxLen: nat, p: nat, jumped: bool, offset: word16,
                   ghost w: Walk, ghost before: seq<byte>)
    returns (fits: bool, destOffset: nat, pos: nat, total: word16)
    requires w.Reading? && w == Reading(p, w.text, jumped, offset) && p < |data| && 0 < data[p] < 192
    requires Step(data, maxLen, w) != Astray
    requires |w.text| == at && maxLen <= dest.Length == |before|
    requires at <= |before| && dest[..] == w.text + before[at..]
    modifies dest
    ensures var v := Step(data, maxLen, w);
            if fits then
              && v == Reading(pos, v.text, jumped, total) && |v.text| == destOffset < maxLen
              && dest[..] == v.text + before[destOffset..]
            else v == Overflowed(w.text) && dest[..] == old(dest[..])
  {
    hide Step, Advance;
    StepCases(data, maxLen, w);
    ghost var v := Step(data, maxLen, w);
    var labelLength := data[p] as nat;
    pos, destOffset := p + 1, at;
    total := Advance(offset, 1, jumped);
    if destOffset + labelLength + 1 >= maxLen {
      return false, destOffset, pos, total;
    }
    CopyLabel(dest, destOffset, data, pos, labelLength, w.text, v.text, before);
    destOffset := destOffset + labelLength + 1;
    pos := pos + labelLength;
    AdvanceTwice(offset, 1, labelLength, jumped);
    total := Advance(total, labelLength, jumped);
    fits := true;
  }

  /** dns_read_name: -1 if the name does not fit in maxLen, otherwise the offset after the name;
      the caller's buffer then holds the dotted text and a NUL, and is otherwise untouched. */
  method ReadName(dest: array<byte>, data: seq<byte>, offset: word16, maxLen: nat) returns (r: int)
    requires 1 <= maxLen <= dest.Length
    requires Settles(data, maxLen, Start(offset))
    modifies dest
    ensures var w := Outcome(data, maxLen, Start(offset));
            && |w.text| <= maxLen
            && (w.Finished? ==>
                  && r == w.total
                  && dest[..] == Shown(w.text) + [0] + old(dest[|Shown(w.text)| + 1..]))
            && (w.Overflowed? ==>
                  && r == -1
                  && dest[..] == w.text + old(dest[|w.text|..]))
  {
    ghost var before := dest[..];
    var pos: nat, destOffset: nat := offset, 0;
    var jumped, total: word16 := false, offset;
    ghost var w := Start(offset);
    ghost var n: nat :| Settled(Run(data, maxLen, w, n));
    OutcomeIs(data, maxLen, w, n);
    ghost var end := Run(data, maxLen, w, n);
    StepInside(data, maxLen, w, n);
    hide Run, Settles, Outcome, Step, Advance;
    while data[pos] != 0
      invariant Settled(Run(data, maxLen, w, n)) && Run(data, maxLen, w, n) == end
      invariant destOffset < maxLen && pos < |data|
      invariant w.Reading? && w.pos == pos && w.jumped == jumped && w.total == total
      invariant |w.text| == destOffset && dest[..] == w.text + before[destOffset..]
      decreases n
    {
      StepInside(data, maxLen, w, n);
      StepCases(data, maxLen, w);
      ghost var v := Step(data, maxLen, w);
      if data[pos] >= 192 {
        total := Advance(total, 2, jumped);
        jumped := true;
        pos := Target(data, pos);
      } else {
        var fits;
        fits, destOffset, pos, total := ReadLabel(dest, destOffset, data, maxLen, pos, jumped, total, w, before);
        if !fits {
          return -1;
        }
      }
      w, n := v, n - 1;
      StepInside(data, maxLen, w, n);
    }
    StepInside(data, maxLen, w, n);
    StepCases(data, maxLen, w);
    total := Advance(total, 1, jumped);
    WriteEnd(dest, destOffset, w.text, before);
    r := total;
  }

  /** The four things a step can do at a byte of the buffer. */
  lemma StepCases(data: seq<byte>, maxLen: nat, w: Walk)
    requires w.Reading? && w.pos < |data| && Step(data, maxLen, w) != Astray
    ensures var b, v := data[w.pos], Step(data, maxLen, w);
            if b == 0 then v == Finished(w.text, Advance(w.total, 1, w.jumped))
            else if b >= 192 then
              w.pos + 1 < |data| && v == Reading(Target(data, w.pos), w.text, true, Advance(w.total, 2, w.jumped))
            else
              var length := b as nat;
              if |w.text| + length + 1 >= maxLen then v == Overflowed(w.text)
              else
                && w.pos + 1 + length <= |data|
                && v == Reading(w.pos + 1 + length, w.text + data[w.pos + 1..w.pos + 1 + length] + [DOT],
                                w.jumped, Advance(w.total, 1 + length, w.jumped))
  {
  }

  lemma AdvanceTwice(total: word16, a: nat, b: nat, jumped: bool)
    ensures Advance(Advance(total, a, jumped), b, jumped) == Advance(total, a + b, jumped)
  {
  }

  /** The last dot gives way to the NUL; an empty name is just the NUL. */
  method WriteEnd(dest: array<byte>, destOffset: nat, ghost text: seq<byte>, ghost before: seq<byte>)
    requires |text| == destOffset <= dest.Length == |before| && 0 < dest.Length
    requires dest[..] == text + before[destOffset..]
    modifies dest
    ensures dest[..] == Shown(text) + [0] + before[|Shown(text)| + 1..]
  {
    if destOffset > 0 {
      dest[destOffset - 1] := 0;
    } else {
      dest[0] := 0;
    }
  }

  /** A machine that will stop properly is now at a byte of the buffer, and one step nearer. */
  lemma StepInside(data: seq<byte>, maxLen: nat, w: Walk, n: nat)
    requires w.Reading? && Settled(Run(data, maxLen, w, n))
    ensures n > 0 && w.pos < |data|
    ensures var v := Step(data, maxLen, w);
            && v != Astray
            && Run(data, maxLen, v, n - 1) == Run(data, maxLen, w, n)
            && (!v.Reading? ==> Run(data, maxLen, w, n) == v)
  {
    if !Step(data, maxLen, w).Reading? {
      RunFixed(data, maxLen, Step(data, maxLen, w), n - 1);
    }
  }

  // ---- util_measure_name ----

  /** The measuring loop meets a zero or a pointer inside the buffer. */
  predicate Measurable(data: seq<byte>, pos: nat)
    decreases |data| - pos
  {
    && pos < |data|
    && (data[pos] == 0 || IsPointer(data[pos]) || Measurable(data, pos + 1 + data[pos] as nat))
  }

  /** The bytes a name occupies where it stands: a pointer counts for two and ends it. */
  function Measure(data: seq<byte>, pos: nat): nat
    requires Measurable(data, pos)
    decreases |data| - pos
  {
    if data[pos] == 0 then 1
    else if IsPointer(data[pos]) then 2
    else 1 + data[pos] as nat + Measure(data, pos + 1 + data[pos] as nat)
  }

  method MeasureName(data: seq<byte>, offset: word16) returns (length: nat)
    requires Measurable(data, offset)
    ensures length == Measure(data, offset)
  {
    length := 0;
    var pos: nat := offset;
    while data[pos] != 0
      invariant Measurable(data, pos)
      invariant length + Measure(data, pos) == Measure(data, offset)
      decreases |data| - pos
    {
      if data[pos] >= 192 {
        return length + 2;
      }
      var labelLength := data[pos] as nat;
      length := length + (labelLength + 1);
      pos := pos + (labelLength + 1);
    }
    length := length + 1;
  }

  lemma {:induction false} JumpedKeepsTotal(data: seq<byte>, maxLen: nat, w: Walk, n: nat)
    requires w.Reading? && w.jumped && Run(data, maxLen, w, n).Finished?
    ensures Run(data, maxLen, w, n).total == w.total
    decreases n
  {
    StepInside(data, maxLen, w, n);
    if Step(data, maxLen, w).Reading? {
      JumpedKeepsTotal(data, maxLen, Step(data, maxLen, w), n - 1);
    }
  }

  lemma {:induction false} WalkMeasures(data: seq<byte>, maxLen: nat, w: Walk, n: nat)
    requires w.Reading? && !w.jumped && Run(data, maxLen, w, n).Finished?
    ensures Measurable(data, w.pos)
    ensures Run(data, maxLen, w, n).total == Advance(w.total, Measure(data, w.pos), false)
    decreases n
  {
    hide Run, Step, Advance;
    StepInside(data, maxLen, w, n);
    StepCases(data, maxLen, w);
    var v := Step(data, maxLen, w);
    if v.Reading? {
      if v.jumped {
        JumpedKeepsTotal(data, maxLen, v, n - 1);
      } else {
        WalkMeasures(data, maxLen, v, n - 1);
        AdvanceTwice(w.total, 1 + data[w.pos] as nat, Measure(data, v.pos), false);
      }
    }
  }

  /** Reading and measuring agree on where the name ends, whatever jumps the reader makes. */
  lemma MeasureAgrees(data: seq<byte>, offset: word16, maxLen: nat)
    requires Settles(data, maxLen, Start(offset))
    requires Outcome(data, maxLen, Start(offset)).Finished?
    ensures Measurable(data, offset)
    ensures Outcome(data, maxLen, Start(offset)).total == (offset + Measure(data, offset)) % 0x1_0000
    ensures offset + Measure(data, offset) < 0x1_0000 ==>
              Outcome(data, maxLen, Start(offset)).total == offset + Measure(data, offset)
  {
    var n: nat :| Settled(Run(data, maxLen, Start(offset), n));
    OutcomeIs(data, maxLen, Start(offset), n);
    WalkMeasures(data, maxLen, Start(offset), n);
  }

  // ---- Termination and memory safety ----

  ghost predicate AtPointer(data: seq<byte>, w: Walk) {
    w.Reading? && w.pos + 1 < |data| && IsPointer(data[w.pos])
  }

  /** Every pointer the reader meets points to a prior occurrence (RFC 1035 section 4.1.4). */
  ghost predicate Backward(data: seq<byte>, maxLen: nat, w: Walk) {
    forall n: nat :: var v := Run(data, maxLen, w, n);
      AtPointer(data, v) ==> Target(data, v.pos) < v.pos
  }

  lemma BackwardStep(data: seq<byte>, maxLen: nat, w: Walk)
    requires Backward(data, maxLen, w)
    ensures Backward(data, maxLen, Step(data, maxLen, w))
    ensures AtPointer(data, w) ==> Target(data, w.pos) < w.pos
  {
    forall n: nat
      ensures var v := Run(data, maxLen, Step(data, maxLen, w), n);
              AtPointer(data, v) ==> Target(data, v.pos) < v.pos
    {
      assert Run(data, maxLen, w, n + 1) == Run(data, maxLen, Step(data, maxLen, w), n);
    }
    assert Run(data, maxLen, w, 0) == w;
  }

  /** With backward pointers the read position never runs ahead of the text by more than the
      starting offset, so no read goes past index offset + maxLen. */
  lemma {:induction false} PositionBound(data: seq<byte>, maxLen: nat, offset: word16, w: Walk, n: nat)
    requires Backward(data, maxLen, w)
    requires w.Reading? ==> w.pos <= offset + |w.text| && |w.text| < maxLen
    ensures var v := Run(data, maxLen, w, n);
            v.Reading? ==> v.pos <= offset + |v.text| && |v.text| < maxLen
    decreases n
  {
    if n > 0 {
      BackwardStep(data, maxLen, w);
      PositionBound(data, maxLen, offset, Step(data, maxLen, w), n - 1);
    }
  }

  /** The loop ends: either the text grows, or it stays and the position goes back. A buffer that
      reaches index offset + maxLen is large enough for every read. */
  lemma {:induction false} BackwardSettlesFrom(data: seq<byte>, maxLen: nat, offset: word16, w: Walk)
    requires w.Reading? && Backward(data, maxLen, w)
    requires w.pos <= offset + |w.text| && |w.text| < maxLen
    requires offset + maxLen < |data|
    ensures Settles(data, maxLen, w)
    decreases maxLen - |w.text|, w.pos
  {
    BackwardStep(data, maxLen, w);
    var v := Step(data, maxLen, w);
    if v.Reading? {
      BackwardSettlesFrom(data, maxLen, offset, v);
    } else {
      OutcomeNow(data, maxLen, v);
    }
    OutcomeStep(data, maxLen, w);
  }

  lemma BackwardSettles(data: seq<byte>, offset: word16, maxLen: nat)
    requires 1 <= maxLen && offset + maxLen < |data|
    requires Backward(data, maxLen, Start(offset))
    ensures Settles(data, maxLen, Start(offset))
    ensures forall n: nat :: var v := Run(data, maxLen, Start(offset), n);
              v.Reading? ==> v.pos <= offset + |v.text| && |v.text| < maxLen
  {
    BackwardSettlesFrom(data, maxLen, offset, Start(offset));
    forall n: nat
      ensures var v := Run(data, maxLen, Start(offset), n);
              v.Reading? ==> v.pos <= offset + |v.text| && |v.text| < maxLen
    {
      PositionBound(data, maxLen, offset, Start(offset), n);
    }
  }

  /** How far the running offset can be from where the name starts. */
  ghost predicate Near(maxLen: nat, offset: word16, w: Walk) {
    && (w.Reading? ==>
          && w.pos <= offset + |w.text| && |w.text| < maxLen
          && w.total <= offset + |w.text| + (if w.jumped then 2 else 0))
    && (w.Finished? ==> w.total <= offset + maxLen + 1)
  }

  lemma StepStaysNear(data: seq<byte>, maxLen: nat, offset: word16, w: Walk)
    requires Backward(data, maxLen, w) && Near(maxLen, offset, w) && offset + maxLen + 2 < 0x1_0000
    ensures Near(maxLen, offset, Step(data, maxLen, w))
  {
    BackwardStep(data, maxLen, w);
    hide Run, Backward;
    if w.Reading? && w.pos < |data| && Step(data, maxLen, w) != Astray {
      StepCases(data, maxLen, w);
    }
  }

  /** With backward pointers the offset after the name is at most two past offset + maxLen - 1. */
  lemma {:induction false} EndBound(data: seq<byte>, maxLen: nat, offset: word16, w: Walk, n: nat)
    requires Backward(data, maxLen, w) && Near(maxLen, offset, w) && offset + maxLen + 2 < 0x1_0000
    ensures Near(maxLen, offset, Run(data, maxLen, w, n))
    decreases n
  {
    if n > 0 {
      BackwardStep(data, maxLen, w);
      StepStaysNear(data, maxLen, offset, w);
      EndBound(data, maxLen, offset, Step(data, maxLen, w), n - 1);
    }
  }

  /** From step n on the reader does nothing but follow pointers. */
  ghost predicate OnlyJumpsFrom(data: seq<byte>, maxLen: nat, w: Walk, n: nat) {
    forall m: nat :: n <= m ==> AtPointer(data, Run(data, maxLen, w, m))
  }

  /** From step n, c jumps and nothing else lead the reader back to where it was. */
  ghost predicate PointerCycle(data: seq<byte>, maxLen: nat, w: Walk, n: nat, c: nat) {
    && c > 0
    && (forall m: nat | n <= m <= n + c :: AtPointer(data, Run(data, maxLen, w, m)))
    && Run(data, maxLen, w, n).pos == Run(data, maxLen, w, n + c).pos
  }

  ghost predicate LeavesBuffer(data: seq<byte>, maxLen: nat, w: Walk) {
    exists n: nat :: Run(data, maxLen, w, n) == Astray
  }

  /** A read goes wrong exactly in one of two ways: it leaves the buffer, or a finite chain of
      pointers closes on itself. Labels alone cannot keep it going, because each of them uses up
      room in the destination. */
  lemma HangsExactlyOnPointerCycle(data: seq<byte>, maxLen: nat, w: Walk)
    ensures !Settles(data, maxLen, w) <==>
              LeavesBuffer(data, maxLen, w) || exists n: nat, c: nat :: PointerCycle(data, maxLen, w, n, c)
  {
    if !Settles(data, maxLen, w) && !LeavesBuffer(data, maxLen, w) {
      var n := EndlessJumps(data, maxLen, w);
      var c, d := JumpsRepeat(data, maxLen, w, n);
    }
    if n: nat :| Run(data, maxLen, w, n) == Astray {
      AstrayForGood(data, maxLen, w, n);
    }
    if n: nat, c: nat :| PointerCycle(data, maxLen, w, n, c) {
      CycleHangs(data, maxLen, w, n, c);
    }
  }

  lemma AstrayForGood(data: seq<byte>, maxLen: nat, w: Walk, n: nat)
    requires Run(data, maxLen, w, n) == Astray
    ensures !Settles(data, maxLen, w)
  {
    if k: nat :| Settled(Run(data, maxLen, w, k)) {
      RunAdd(data, maxLen, w, k, n);
      RunFixed(data, maxLen, Run(data, maxLen, w, k), n);
      RunAdd(data, maxLen, w, n, k);
      RunFixed(data, maxLen, Astray, k);
      assert false;
    }
  }

  /** There are only |data| positions to jump to. */
  lemma JumpsRepeat(data: seq<byte>, maxLen: nat, w: Walk, n: nat) returns (m: nat, c: nat)
    requires OnlyJumpsFrom(data, maxLen, w, n)
    ensures PointerCycle(data, maxLen, w, m, c)
  {
    hide Run, Settles;
    var positions := Below(|data|);
    var where := (k: nat) => var v := Run(data, maxLen, w, n + k); if v.Reading? then v.pos else 0;
    forall k: nat
      ensures where(k) in positions
    {
      assert AtPointer(data, Run(data, maxLen, w, n + k));
    }
    var i, j := SomeValueTwice(where, positions);
    m, c := n + i, j - i;
    assert AtPointer(data, Run(data, maxLen, w, n + i)) && AtPointer(data, Run(data, maxLen, w, n + j));
  }

  /** Where a jump leads depends on the position alone. */
  lemma {:induction false} JumpAlike(data: seq<byte>, maxLen: nat, u: Walk, v: Walk, k: nat)
    requires u.Reading? && v.Reading? && u.pos == v.pos
    requires forall m: nat | m <= k :: AtPointer(data, Run(data, maxLen, u, m))
    ensures AtPointer(data, Run(data, maxLen, v, k))
    decreases k
  {
    assert AtPointer(data, Run(data, maxLen, u, 0));
    if k > 0 {
      forall m: nat | m <= k - 1
        ensures AtPointer(data, Run(data, maxLen, Step(data, maxLen, u), m))
      {
        assert AtPointer(data, Run(data, maxLen, u, m + 1));
      }
      JumpAlike(data, maxLen, Step(data, maxLen, u), Step(data, maxLen, v), k - 1);
    }
  }

  lemma {:induction false} CycleForever(data: seq<byte>, maxLen: nat, w: Walk, n: nat, c: nat, k: nat)
    requires PointerCycle(data, maxLen, w, n, c)
    ensures AtPointer(data, Run(data, maxLen, w, n + k))
    decreases k
  {
    if k > c {
      var u, v := Run(data, maxLen, w, n), Run(data, maxLen, w, n + c);
      forall m: nat | m <= k - c
        ensures AtPointer(data, Run(data, maxLen, u, m))
      {
        CycleForever(data, maxLen, w, n, c, m);
        RunAdd(data, maxLen, w, n, m);
      }
      JumpAlike(data, maxLen, u, v, k - c);
      RunAdd(data, maxLen, w, n + c, k - c);
    }
  }

  lemma CycleHangs(data: seq<byte>, maxLen: nat, w: Walk, n: nat, c: nat)
    requires PointerCycle(data, maxLen, w, n, c)
    ensures !Settles(data, maxLen, w)
  {
    if k: nat :| Settled(Run(data, maxLen, w, k)) {
      RunAdd(data, maxLen, w, k, n);
      RunFixed(data, maxLen, Run(data, maxLen, w, k), n);
      CycleForever(data, maxLen, w, n, c, k);
      assert false;
    }
  }

  lemma {:induction false} EndlessJumps(data: seq<byte>, maxLen: nat, w: Walk) returns (n: nat)
    requires !Settles(data, maxLen, w) && !LeavesBuffer(data, maxLen, w)
    ensures OnlyJumpsFrom(data, maxLen, w, n)
    decreases maxLen - if w.Reading? then |w.text| else 0
  {
    assert Run(data, maxLen, w, 0) == w;
    if OnlyJumpsFrom(data, maxLen, w, 0) {
      return 0;
    }
    var m: nat :| !AtPointer(data, Run(data, maxLen, w, m));
    var v := Run(data, maxLen, w, m);
    TextGrows(data, maxLen, w, m);
    var u := Step(data, maxLen, v);
    assert u == Run(data, maxLen, v, 1);
    RunAdd(data, maxLen, w, m, 1);
    assert !Settled(v) && v != Astray;
    assert !Settled(u) && u != Astray;
    forall k: nat
      ensures Run(data, maxLen, u, k) == Run(data, maxLen, w, m + 1 + k)
    {
      RunAdd(data, maxLen, w, m + 1, k);
    }
    var k := EndlessJumps(data, maxLen, u);
    n := m + 1 + k;
    forall j: nat | n <= j
      ensures AtPointer(data, Run(data, maxLen, w, j))
    {
      var i := j - (m + 1);
      assert Run(data, maxLen, u, i) == Run(data, maxLen, w, m + 1 + i);
      assert AtPointer(data, Run(data, maxLen, u, i));
    }
  }

  lemma {:induction false} TextGrows(data: seq<byte>, maxLen: nat, w: Walk, n: nat)
    requires w.Reading? && Run(data, maxLen, w, n).Reading?
    ensures |w.text| <= |Run(data, maxLen, w, n).text|
    decreases n
  {
    if n > 0 {
      if !Step(data, maxLen, w).Reading? {
        RunFixed(data, maxLen, Step(data, maxLen, w), n - 1);
      }
      TextGrows(data, maxLen, Step(data, maxLen, w), n - 1);
    }
  }

  /** Why "strictly backward" is needed: a name that starts with a pointer to itself is never
      read to its end. */
  lemma SelfPointerHangs(data: seq<byte>, maxLen: nat, offset: word16)
    requires AtPointer(data, Start(offset)) && Target(data, offset) == offset
    ensures PointerCycle(data, maxLen, Start(offset), 0, 1) && !Settles(data, maxLen, Start(offset))
  {
    var w := Start(offset);
    assert Run(data, maxLen, w, 0) == w && Run(data, maxLen, w, 1) == Step(data, maxLen, w);
    CycleHangs(data, maxLen, w, 0, 1);
  }

  // ---- What a name means (RFC 1035 section 4.1.4) ----

  /** The bytes at pos spell the labels ls: labels one after another, closed by a zero or by a
      pointer to a prior place that spells the remaining ones. */
  ghost predicate Spells(data: seq<byte>, pos: nat, ls: seq<Label>)
    decreases |ls|, pos
  {
    && pos < |data|
    && if data[pos] == 0 then ls == []
       else if IsPointer(data[pos]) then
         pos + 1 < |data| && Target(data, pos) < pos && Spells(data, Target(data, pos), ls)
       else
         && ls != []
         && var next := pos + 1 + data[pos] as nat;
         && next <= |data|
         && ls[0] == data[pos + 1..next]
         && Spells(data, next, ls[1..])
  }

  lemma {:induction false} SpellsUnique(data: seq<byte>, pos: nat, a: seq<Label>, b: seq<Label>)
    requires Spells(data, pos, a) && Spells(data, pos, b)
    ensures a == b
    decreases |a|, pos
  {
    if data[pos] == 0 {
    } else if IsPointer(data[pos]) {
      SpellsUnique(data, Target(data, pos), a, b);
    } else {
      SpellsUnique(data, pos + 1 + data[pos] as nat, a[1..], b[1..]);
      assert a == [a[0]] + a[1..] && b == [b[0]] + b[1..];
    }
  }

  lemma {:induction false} SpelledReadable(data: seq<byte>, pos: nat, ls: seq<Label>)
    requires Spells(data, pos, ls)
    ensures Readable(ls)
    decreases |ls|, pos
  {
    if data[pos] == 0 {
    } else if IsPointer(data[pos]) {
      SpelledReadable(data, Target(data, pos), ls);
    } else {
      SpelledReadable(data, pos + 1 + data[pos] as nat, ls[1..]);
      assert ls == [ls[0]] + ls[1..];
    }
  }

  /** Does the text of ls fit after `used` bytes? The source leaves one byte to spare, and asks
      nothing when there is no label. */
  predicate Fits(used: nat, ls: seq<Label>, maxLen: nat) {
    ls == [] || used + |Text(ls)| < maxLen
  }

  lemma SpellsHead(data: seq<byte>, pos: nat, ls: seq<Label>)
    requires Spells(data, pos, ls) && data[pos] != 0 && !IsPointer(data[pos])
    ensures pos < |data|
    ensures var next := pos + 1 + data[pos] as nat;
            && ls != [] && next <= |data| && ls[0] == data[pos + 1..next]
            && Spells(data, next, ls[1..])
  {
  }

  lemma TextHead(text: seq<byte>, ls: seq<Label>)
    requires ls != []
    ensures text + ls[0] + [DOT] + Text(ls[1..]) == text + Text(ls)
    ensures |Text(ls)| == |ls[0]| + 1 + |Text(ls[1..])|
    ensures |ls| == 1 ==> |Text(ls)| == |ls[0]| + 1
  {
    Associate(text, ls[0], [DOT], Text(ls[1..]));
  }

  /** One label of a spelled name: read, or found too long for the room left. */
  lemma LabelStep(data: seq<byte>, maxLen: nat, w: Walk, ls: seq<Label>)
    requires w.Reading? && Spells(data, w.pos, ls) && data[w.pos] != 0 && !IsPointer(data[w.pos])
    ensures var v := Step(data, maxLen, w);
            if v.Overflowed? then !Fits(|w.text|, ls, maxLen)
            else
              && v.Reading? && ls != [] && Spells(data, v.pos, ls[1..])
              && v.text + Text(ls[1..]) == w.text + Text(ls)
              && (Fits(|v.text|, ls[1..], maxLen) <==> Fits(|w.text|, ls, maxLen))
  {
    hide Spells, Text, Advance;
    SpellsHead(data, w.pos, ls);
    TextHead(w.text, ls);
  }

  /** The reader, started anywhere on a spelled name, appends its text, or gives up exactly when
      that text does not fit. */
  lemma {:induction false} ReadSpelled(data: seq<byte>, maxLen: nat, w: Walk, ls: seq<Label>)
    requires w.Reading? && Spells(data, w.pos, ls)
    ensures Settles(data, maxLen, w)
    ensures var r := Outcome(data, maxLen, w);
            && (r.Finished? <==> Fits(|w.text|, ls, maxLen))
            && (r.Finished? ==> r.text == w.text + Text(ls))
    decreases |ls|, w.pos
  {
    hide Run, Outcome, Settles, Advance;
    var v := Step(data, maxLen, w);
    if data[w.pos] == 0 {
      OutcomeNow(data, maxLen, v);
    } else if IsPointer(data[w.pos]) {
      ReadSpelled(data, maxLen, v, ls);
    } else {
      LabelStep(data, maxLen, w, ls);
      if v.Overflowed? {
        OutcomeNow(data, maxLen, v);
      } else {
        ReadSpelled(data, maxLen, v, ls[1..]);
      }
    }
    OutcomeStep(data, maxLen, w);
  }

  /** Conversely, what a backward read accepted was spelled there. */
  lemma {:induction false} AcceptedIsSpelled(data: seq<byte>, maxLen: nat, w: Walk, n: nat) returns (ls: seq<Label>)
    requires w.Reading? && Backward(data, maxLen, w) && Run(data, maxLen, w, n).Finished?
    ensures Spells(data, w.pos, ls) && Run(data, maxLen, w, n).text == w.text + Text(ls)
    decreases n
  {
    BackwardStep(data, maxLen, w);
    var v := Step(data, maxLen, w);
    if !v.Reading? {
      RunFixed(data, maxLen, v, n - 1);
      return [];
    }
    var rest := AcceptedIsSpelled(data, maxLen, v, n - 1);
    if IsPointer(data[w.pos]) {
      return rest;
    }
    var front := data[w.pos + 1..w.pos + 1 + data[w.pos] as nat];
    ls := [front] + rest;
    assert ls[1..] == rest;
    assert v.text + Text(rest) == w.text + Text(ls);
  }

  /** dns_read_name against RFC 1035: with backward pointers it always ends, it succeeds exactly
      when the bytes spell a name whose text fits, and then returns that name's text. */
  lemma ReadRefinesDenotation(data: seq<byte>, offset: word16, maxLen: nat)
    requires 1 <= maxLen && offset + maxLen < |data|
    requires Backward(data, maxLen, Start(offset))
    ensures Settles(data, maxLen, Start(offset))
    ensures var r := Outcome(data, maxLen, Start(offset));
            && (r.Finished? <==> exists ls :: Spells(data, offset, ls) && Fits(0, ls, maxLen))
            && (forall ls :: Spells(data, offset, ls) && r.Finished? ==> Shown(r.text) == Dotted(ls))
  {
    BackwardSettles(data, offset, maxLen);
    var r := Outcome(data, maxLen, Start(offset));
    forall ls | Spells(data, offset, ls)
      ensures r.Finished? <==> Fits(0, ls, maxLen)
      ensures r.Finished? ==> r.text == Text(ls)
    {
      ReadSpelled(data, maxLen, Start(offset), ls);
      assert [] + Text(ls) == Text(ls);
    }
    if r.Finished? {
      var n: nat :| Settled(Run(data, maxLen, Start(offset), n));
      OutcomeIs(data, maxLen, Start(offset), n);
      var ls := AcceptedIsSpelled(data, maxLen, Start(offset), n);
      assert Spells(data, offset, ls);
    }
  }

  // ---- Encodings and compression ----

  /** The first label and what follows it, where a prefixed name stands in a buffer. */
  lemma PrefixedHead(data: seq<byte>, pos: nat, ls: seq<Label>, tail: seq<byte>)
    requires ls != [] && |ls[0]| < 0x100 && Holds(data, pos, Prefixed(ls) + tail)
    ensures var next := pos + 1 + |ls[0]|;
            && |Prefixed(ls)| == 1 + |ls[0]| + |Prefixed(ls[1..])|
            && next <= |data| && data[pos] as nat == |ls[0]| && data[pos + 1..next] == ls[0]
            && Holds(data, next, Prefixed(ls[1..]) + tail)
  {
    var first: seq<byte>, l, rest := [|ls[0]| as byte], ls[0], Prefixed(ls[1..]) + tail;
    assert Prefixed(ls) + tail == first + (l + rest);
    hide Prefixed;
    HoldsAppend(data, pos, first, l + rest);
    HoldsAppend(data, pos + 1, l, rest);
    HoldsSlice(data, pos + 1, l);
    HoldsAt(data, pos, first, 0);
  }

  lemma SpellsCons(data: seq<byte>, pos: nat, ls: seq<Label>)
    requires ls != [] && ReadableLabel(ls[0]) && pos < |data| && data[pos] as nat == |ls[0]|
    requires var next := pos + 1 + |ls[0]|;
             next <= |data| && data[pos + 1..next] == ls[0] && Spells(data, next, ls[1..])
    ensures Spells(data, pos, ls)
  {
  }

  lemma {:induction false} PrefixedSpells(data: seq<byte>, pos: nat, ls: seq<Label>, rest: seq<Label>)
    requires Readable(ls) && Holds(data, pos, Prefixed(ls))
    requires Spells(data, pos + |Prefixed(ls)|, rest)
    ensures Spells(data, pos, ls + rest)
    decreases |ls|
  {
    hide Spells, Holds;
    if ls == [] {
      assert ls + rest == rest;
    } else {
      assert ls[0] in ls;
      assert Prefixed(ls) + [] == Prefixed(ls) && Prefixed(ls[1..]) + [] == Prefixed(ls[1..]);
      PrefixedHead(data, pos, ls, []);
      PrefixedSpells(data, pos + 1 + |ls[0]|, ls[1..], rest);
      assert (ls + rest)[0] == ls[0] && (ls + rest)[1..] == ls[1..] + rest;
      SpellsCons(data, pos, ls + rest);
    }
  }

  lemma EncodedSpells(data: seq<byte>, pos: nat, ls: seq<Label>)
    requires Readable(ls) && Holds(data, pos, Encoded(ls))
    ensures Spells(data, pos, ls)
  {
    HoldsAppend(data, pos, Prefixed(ls), [0]);
    HoldsAt(data, pos + |Prefixed(ls)|, [0], 0);
    PrefixedSpells(data, pos, ls, []);
    assert ls + [] == ls;
  }

  lemma {:induction false} EncodedMeasure(data: seq<byte>, pos: nat, ls: seq<Label>)
    requires Readable(ls) && Holds(data, pos, Encoded(ls))
    ensures Measurable(data, pos) && Measure(data, pos) == |Encoded(ls)|
    decreases |ls|
  {
    if ls == [] {
      HoldsAt(data, pos, Encoded(ls), 0);
    } else {
      assert ls[0] in ls;
      PrefixedHead(data, pos, ls, [0]);
      EncodedMeasure(data, pos + 1 + |ls[0]|, ls[1..]);
    }
  }

  /** The two bytes of a compression pointer to t: two bits set, then fourteen bits of offset. */
  function PointerBytes(t: nat): (bs: seq<byte>)
    requires t < 0x4000
    ensures |bs| == 2
  {
    [(192 + t / 0x100) as byte, (t % 0x100) as byte]
  }

  /** Every offset below 2^14 has its pointer, and the reader goes exactly there. */
  lemma PointerLeadsTo(data: seq<byte>, p: nat, t: nat)
    requires t < 0x4000 && Holds(data, p, PointerBytes(t))
    ensures p + 1 < |data| && IsPointer(data[p]) && Target(data, p) == t
  {
    HoldsAt(data, p, PointerBytes(t), 0);
    HoldsAt(data, p, PointerBytes(t), 1);
    var u := Target(data, p);
    assert u == u / 0x100 * 0x100 + u % 0x100 && t == t / 0x100 * 0x100 + t % 0x100;
  }

  /** data[pos..] holds the labels ls and then a compression pointer to t, a prior place. */
  ghost predicate LabelsThenPointer(data: seq<byte>, pos: nat, ls: seq<Label>, t: nat) {
    && t < 0x4000 && t < pos + |Prefixed(ls)|
    && Holds(data, pos, Prefixed(ls) + PointerBytes(t))
  }

  lemma PointerAfterLabels(data: seq<byte>, pos: nat, ls: seq<Label>, t: nat)
    requires LabelsThenPointer(data, pos, ls, t)
    ensures var end := pos + |Prefixed(ls)|;
            && Holds(data, pos, Prefixed(ls))
            && end + 1 < |data| && IsPointer(data[end]) && Target(data, end) == t < end
  {
    HoldsAppend(data, pos, Prefixed(ls), PointerBytes(t));
    PointerLeadsTo(data, pos + |Prefixed(ls)|, t);
  }

  /** Compression preserves meaning: labels followed by a pointer read exactly like the labels
      written out in full, in any buffer, into any destination size. */
  lemma CompressionPreservesMeaning(
      data: seq<byte>, pos: word16, ls: seq<Label>, t: nat, ms: seq<Label>,
      plain: seq<byte>, plainPos: word16, maxLen: nat)
    requires Readable(ls) && LabelsThenPointer(data, pos, ls, t) && Spells(data, t, ms)
    requires Holds(plain, plainPos, Encoded(ls + ms))
    ensures Spells(data, pos, ls + ms)
    ensures Settles(data, maxLen, Start(pos)) && Settles(plain, maxLen, Start(plainPos))
    ensures var r, p := Outcome(data, maxLen, Start(pos)), Outcome(plain, maxLen, Start(plainPos));
            && (r.Finished? <==> p.Finished?)
            && (r.Finished? ==> r.text == p.text == Text(ls + ms))
            && (r.Finished? ==> r.total == (pos + |Prefixed(ls)| + 2) % 0x1_0000)
  {
    var end := pos + |Prefixed(ls)|;
    PointerAfterLabels(data, pos, ls, t);
    assert Spells(data, end, ms);
    PrefixedSpells(data, pos, ls, ms);
    SpelledReadable(data, t, ms);
    EncodedSpells(plain, plainPos, ls + ms);
    ReadSpelled(data, maxLen, Start(pos), ls + ms);
    ReadSpelled(plain, maxLen, Start(plainPos), ls + ms);
    if Outcome(data, maxLen, Start(pos)).Finished? {
      MeasureAgrees(data, pos, maxLen);
      MeasureToPointer(data, pos, ls);
    }
  }

  /** A compressed name, byte by byte: the labels ls, a pointer to t, and at t the labels ms with
      their zero, are read as the labels of both, for every t of fourteen bits. */
  lemma CompressedNameReads(data: seq<byte>, pos: word16, ls: seq<Label>, t: nat, ms: seq<Label>, maxLen: nat)
    requires Readable(ls) && Readable(ms) && t < 0x4000 && t < pos + |Prefixed(ls)|
    requires Holds(data, pos, Prefixed(ls) + [(192 + t / 0x100) as byte, (t % 0x100) as byte])
    requires Holds(data, t, Encoded(ms))
    ensures Settles(data, maxLen, Start(pos))
    ensures var r := Outcome(data, maxLen, Start(pos));
            && (r.Finished? <==> Fits(0, ls + ms, maxLen))
            && (r.Finished? ==> r.text == Text(ls + ms))
            && (r.Finished? ==> r.total == (pos + |Prefixed(ls)| + 2) % 0x1_0000)
  {
    EncodedSpells(data, t, ms);
    CompressionPreservesMeaning(data, pos, ls, t, ms, Encoded(ls + ms), 0, maxLen);
    ReadSpelled(data, maxLen, Start(pos), ls + ms);
    assert [] + Text(ls + ms) == Text(ls + ms);
  }

  lemma {:induction false} MeasureToPointer(data: seq<byte>, pos: nat, ls: seq<Label>)
    requires Readable(ls) && Holds(data, pos, Prefixed(ls))
    requires pos + |Prefixed(ls)| < |data| && IsPointer(data[pos + |Prefixed(ls)|])
    ensures Measurable(data, pos) && Measure(data, pos) == |Prefixed(ls)| + 2
    decreases |ls|
  {
    if ls != [] {
      assert ls[0] in ls;
      assert Prefixed(ls) + [] == Prefixed(ls) && Prefixed(ls[1..]) + [] == Prefixed(ls[1..]);
      PrefixedHead(data, pos, ls, []);
      MeasureToPointer(data, pos + 1 + |ls[0]|, ls[1..]);
    }
  }

  /** No encoding of a name is the beginning of another's; in particular encodings are injective. */
  lemma EncodedPrefixFree(a: seq<Label>, b: seq<Label>)
    requires Readable(a) && Readable(b)
    requires Encoded(a) <= Encoded(b)
    ensures a == b
  {
    EncodedSpells(Encoded(b), 0, a);
    EncodedSpells(Encoded(b), 0, b);
    SpellsUnique(Encoded(b), 0, a, b);
  }
}
