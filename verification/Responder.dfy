/** `handle_dns_query` of DNS_server/Others/tdns-c-test.c: its own name decoder, and the response
    it builds around a compression pointer to the question. Finding the address is left out. */
module Responder {
  import opened Bytes
  import opened Names
  import opened NameReader
  import opened NameWriter
  import opened Messages

  const DOMAIN_LAST := 255  // sizeof(domain) - 1

  /** How many bytes of a label the inner loop copies before one of its three tests fails. */
  function CopyCount(labelLength: nat, left: nat, room: nat): nat {
    var n := if labelLength < left then labelLength else left;
    if n < room then n else room
  }

  /** The domain array, dots included, when the outer loop ends; None if it first reads past the
      receive buffer. */
  function DecodedFrom(buffer: seq<byte>, received: nat, i: nat, text: seq<byte>, labelLength: int): Option<seq<byte>>
    requires received <= |buffer|
    decreases received - i
  {
    if labelLength > 0 && i < received && |text| < DOMAIN_LAST then
      var n := CopyCount(labelLength, received - i, DOMAIN_LAST - |text|);
      if i + n == |buffer| then None
      else DecodedFrom(buffer, received, i + n + 1, text + buffer[i..i + n] + [DOT], Signed(buffer[i + n]))
    else Some(text)
  }

  function Decoded(buffer: seq<byte>, received: nat): Option<seq<byte>>
    requires HEADER_SIZE < received <= |buffer|
  {
    DecodedFrom(buffer, received, HEADER_SIZE + 1, [], Signed(buffer[HEADER_SIZE]))
  }

  /** A datagram that leaves a byte of the buffer free is always decoded inside it. */
  lemma {:induction false} DecodesInside(buffer: seq<byte>, received: nat, i: nat, text: seq<byte>, labelLength: int)
    requires received < |buffer|
    ensures DecodedFrom(buffer, received, i, text, labelLength).Some?
    decreases received - i
  {
    if labelLength > 0 && i < received && |text| < DOMAIN_LAST {
      var n := CopyCount(labelLength, received - i, DOMAIN_LAST - |text|);
      DecodesInside(buffer, received, i + n + 1, text + buffer[i..i + n] + [DOT], Signed(buffer[i + n]));
    }
  }

  /** The inner loop, and the dot after the label. */
  method CopyRun(text: array<byte>, buffer: seq<byte>, received: nat, from: nat, at: nat, length: nat,
                 ghost had: seq<byte>)
    returns (i: nat, j: nat)
    requires text.Length == 256 && from < received <= |buffer| && at < DOMAIN_LAST && 0 < length
    requires |had| == at && Holds(text[..], 0, had)
    modifies text
    ensures var n := CopyCount(length, received - from, DOMAIN_LAST - at);
            && i == from + n && j == at + n + 1
            && Holds(text[..], 0, had + buffer[from..i] + [DOT])
  {
    i, j := from, at;
    var labelLength := length;
    while labelLength > 0 && i < received && j < DOMAIN_LAST
      invariant from <= i <= received && j == at + (i - from) <= DOMAIN_LAST
      invariant labelLength == length - (i - from) >= 0
      invariant forall k | 0 <= k < at :: text[k] == had[k]
      invariant forall k | at <= k < j :: text[k] == buffer[from + (k - at)]
    {
      labelLength := labelLength - 1;
      text[j] := buffer[i];
      j := j + 1;
      i := i + 1;
    }
    text[j] := DOT;
    j := j + 1;
  }

  /** The query's name. The source writes domain[j - 1], so it counts on at least one label; and
      a datagram that fills the receive buffer must end its name before the last byte. */
  method DecodeQueryName(buffer: seq<byte>, received: nat) returns (domain: seq<byte>)
    requires |buffer| == UDP_SIZE && HEADER_SIZE + 1 < received <= UDP_SIZE
    requires Signed(buffer[HEADER_SIZE]) > 0 && Decoded(buffer, received).Some?
    ensures domain == CString(Shown(Decoded(buffer, received).value))
  {
    var text: array<byte> := new byte[256](_ => 0);
    var i, j: nat := HEADER_SIZE, 0;
    var labelLength := Signed(buffer[i]);
    i := i + 1;
    ghost var collected: seq<byte> := [];
    while labelLength > 0 && i < received && j < DOMAIN_LAST
      invariant i <= received + 1 && j <= 256 && (j == 0 ==> i < received && labelLength > 0)
      invariant DecodedFrom(buffer, received, i, collected, labelLength).Some?
      invariant |collected| == j && Holds(text[..], 0, collected)
      invariant DecodedFrom(buffer, received, i, collected, labelLength) == Decoded(buffer, received)
      decreases received + 1 - i
    {
      hide Holds, DecodedFrom, Decoded, CopyCount;
      DecodeStep(buffer, received, i, collected, labelLength);
      ghost var from := i;
      i, j := CopyRun(text, buffer, received, i, j, labelLength, collected);
      collected := collected + buffer[from..i] + [DOT];
      labelLength := Signed(buffer[i]);
      i := i + 1;
    }
    domain := EndDomain(text, j, collected);
  }

  /** The last dot becomes the NUL. */
  method EndDomain(text: array<byte>, j: nat, ghost collected: seq<byte>) returns (domain: seq<byte>)
    requires 0 < j == |collected| <= text.Length && Holds(text[..], 0, collected)
    modifies text
    ensures domain == CString(Shown(collected))
  {
    text[j - 1] := 0;
    assert text[..] == Shown(collected) + [0] + text[j..] by {
      forall k | 0 <= k < j - 1
        ensures text[k] == collected[k]
      {
        HoldsAt(old(text[..]), 0, collected, k);
      }
    }
    CStringCut(Shown(collected), text[j..]);
    domain := CString(text[..]);
  }

  lemma DecodeStep(buffer: seq<byte>, received: nat, i: nat, text: seq<byte>, length: nat)
    requires 0 < length && i < received <= |buffer| && |text| < DOMAIN_LAST
    ensures var n := CopyCount(length, received - i, DOMAIN_LAST - |text|);
            && i + n <= |buffer|
            && DecodedFrom(buffer, received, i, text, length) ==
                 if i + n == |buffer| then None
                 else
                   DecodedFrom(buffer, received, i + n + 1, text + buffer[i..i + n] + [DOT], Signed(buffer[i + n]))
  {
  }

  /** A label that lies wholly before the end of the datagram and of the domain array. */
  lemma DecodeLabel(buffer: seq<byte>, received: nat, pos: nat, text: seq<byte>, l: Label)
    requires 1 <= |l| < 128 && |text| + |l| <= DOMAIN_LAST
    requires pos + 1 + |l| < received <= |buffer|
    requires buffer[pos] as nat == |l| && buffer[pos + 1..pos + 1 + |l|] == l
    ensures var next := pos + 1 + |l|;
            DecodedFrom(buffer, received, pos + 1, text, Signed(buffer[pos]))
            == DecodedFrom(buffer, received, next + 1, text + l + [DOT], Signed(buffer[next]))
  {
  }

  lemma DecodeEnd(buffer: seq<byte>, received: nat, pos: nat, text: seq<byte>)
    requires pos < received <= |buffer| && Holds(buffer, pos, Encoded([]))
    ensures DecodedFrom(buffer, received, pos + 1, text, Signed(buffer[pos])) == Some(text + Text([]))
  {
    HoldsAt(buffer, pos, Encoded([]), 0);
    assert text + Text([]) == text;
  }

  /** The labels before the first whose length byte is negative as a char. */
  function ShortRun(ls: seq<Label>): seq<Label> {
    if ls == [] || |ls[0]| >= 128 then [] else [ls[0]] + ShortRun(ls[1..])
  }

  lemma {:induction false} ShortRunText(ls: seq<Label>)
    ensures (forall l | l in ls :: |l| < 128) ==> ShortRun(ls) == ls
    ensures (exists l | l in ls :: |l| >= 128) ==> |Text(ShortRun(ls))| < |Text(ls)|
  {
    if ls != [] {
      assert ls == [ls[0]] + ls[1..];
      ShortRunText(ls[1..]);
    }
  }

  lemma DecodeStops(buffer: seq<byte>, received: nat, pos: nat, text: seq<byte>, ls: seq<Label>)
    requires ls != [] && 128 <= |ls[0]| < 192
    requires pos < |buffer| && received <= |buffer| && buffer[pos] as nat == |ls[0]|
    ensures DecodedFrom(buffer, received, pos + 1, text, Signed(buffer[pos])) == Some(text + Text(ShortRun(ls)))
  {
    assert text + [] == text;
  }

  /** On the encoding of a readable name that fits the array, the decoder collects exactly the text
      of the labels before the first one of 128 bytes or more. */
  lemma {:induction false} DecodesLabels(buffer: seq<byte>, received: nat, pos: nat, text: seq<byte>, ls: seq<Label>)
    requires Readable(ls)
    requires |text| + |Text(ls)| <= DOMAIN_LAST
    requires pos + |Encoded(ls)| <= received <= |buffer| && Holds(buffer, pos, Encoded(ls))
    ensures DecodedFrom(buffer, received, pos + 1, text, Signed(buffer[pos])) == Some(text + Text(ShortRun(ls)))
    decreases |ls|
  {
    hide DecodedFrom, Prefixed, Text, Holds;
    if ls == [] {
      DecodeEnd(buffer, received, pos, text);
      return;
    }
    assert ls[0] in ls;
    PrefixedHead(buffer, pos, ls, [0]);
    TextHead(text, ls);
    if |ls[0]| >= 128 {
      DecodeStops(buffer, received, pos, text, ls);
    } else {
      DecodeLabel(buffer, received, pos, text, ls[0]);
      DecodesLabels(buffer, received, pos + 1 + |ls[0]|, text + ls[0] + [DOT], ls[1..]);
      TextHead(text, ShortRun(ls));
    }
  }

  /** What the domain array of 256 bytes can take of a text: 255 bytes, closed by a dot. */
  function Cut(text: seq<byte>): seq<byte> {
    if |text| <= 255 then text
    else if text[254] == DOT then text[..255]
    else text[..255] + [DOT]
  }

  lemma CutFull(text: seq<byte>, more: seq<byte>)
    requires |text| == 255 && text[254] == DOT
    ensures Cut(text + more) == text
  {
    assert (text + more)[..255] == text;
  }

  lemma CutInside(text: seq<byte>, l: seq<byte>, more: seq<byte>)
    requires |text| < 255 <= |text| + |l| && DOT !in l
    ensures Cut(text + l + [DOT] + more) == text + l[..255 - |text|] + [DOT]
  {
    var t, n := text + l + [DOT] + more, 255 - |text|;
    assert t[254] == l[n - 1];
    assert t[..255] == text + l[..n];
  }

  /** The label that fills the array. */
  lemma DecodeFills(buffer: seq<byte>, received: nat, pos: nat, text: seq<byte>, l: Label)
    requires 1 <= |l| < 128 && |text| < 255 <= |text| + |l|
    requires pos + 1 + |l| < received <= |buffer|
    requires buffer[pos] as nat == |l| && buffer[pos + 1..pos + 1 + |l|] == l
    ensures DecodedFrom(buffer, received, pos + 1, text, Signed(buffer[pos]))
         == Some(text + l[..255 - |text|] + [DOT])
  {
    hide DecodedFrom;
    var n := 255 - |text|;
    DecodeStep(buffer, received, pos + 1, text, |l|);
    assert CopyCount(|l|, received - (pos + 1), DOMAIN_LAST - |text|) == n;
    assert buffer[pos + 1..pos + 1 + n] == buffer[pos + 1..pos + 1 + |l|][..n];
    DecodeFull(buffer, received, pos + 1 + n + 1, text + l[..n] + [DOT], Signed(buffer[pos + 1 + n]));
  }

  lemma DecodeFull(buffer: seq<byte>, received: nat, i: nat, text: seq<byte>, length: int)
    requires received <= |buffer| && |text| >= 255
    ensures DecodedFrom(buffer, received, i, text, length) == Some(text)
  {
  }

  /** On the encoding of any readable name inside the datagram, whether or not it fits: the text of
      the labels before the first one of 128 bytes or more, cut to the size of the array. */
  lemma {:induction false} DecodesCut(buffer: seq<byte>, received: nat, pos: nat, text: seq<byte>, ls: seq<Label>)
    requires Readable(ls) && forall l | l in ls :: DOT !in l
    requires |text| <= 255 && (text == [] || text[|text| - 1] == DOT)
    requires pos + |Encoded(ls)| <= received <= |buffer| && Holds(buffer, pos, Encoded(ls))
    ensures DecodedFrom(buffer, received, pos + 1, text, Signed(buffer[pos])) == Some(Cut(text + Text(ShortRun(ls))))
    decreases |ls|
  {
    hide DecodedFrom, Prefixed, Text, Holds, Cut, CopyCount;
    if |text| == 255 {
      HoldsAt(buffer, pos, Encoded(ls), 0);
      DecodeFull(buffer, received, pos + 1, text, Signed(buffer[pos]));
      CutFull(text, Text(ShortRun(ls)));
    } else if ls == [] {
      DecodeEnd(buffer, received, pos, text);
      CutShort(text);
    } else {
      assert ls[0] in ls;
      PrefixedHead(buffer, pos, ls, [0]);
      if |ls[0]| >= 128 {
        DecodeStops(buffer, received, pos, text, ls);
        CutShort(text);
      } else {
        TextHead(text, ShortRun(ls));
        if |text| + |ls[0]| >= 255 {
          DecodeFills(buffer, received, pos, text, ls[0]);
          CutInside(text, ls[0], Text(ShortRun(ls[1..])));
        } else {
          DecodeLabel(buffer, received, pos, text, ls[0]);
          DecodesCut(buffer, received, pos + 1 + |ls[0]|, text + ls[0] + [DOT], ls[1..]);
        }
      }
    }
  }

  lemma CutShort(text: seq<byte>)
    requires |text| <= 255
    ensures Cut(text + Text([])) == text + Text([]) == text
  {
    assert text + Text([]) == text;
  }

  lemma DecodedName(buffer: seq<byte>, received: nat, name: seq<byte>)
    requires Portable(name) && HEADER_SIZE + |name| + 2 <= received <= |buffer|
    requires Holds(buffer, HEADER_SIZE, Encoded(Split(name)))
    ensures Decoded(buffer, received) == Some(Text(ShortRun(Split(name))))
  {
    hide Holds, Split, Text, Encoded, DecodedFrom;
    var ls := Split(name);
    WireLength(name);
    SplitText(name);
    DecodesLabels(buffer, received, HEADER_SIZE, [], ls);
    assert [] + Text(ShortRun(ls)) == Text(ShortRun(ls));
  }

  /** All the labels are short, or less than the name was collected. */
  lemma CollectedExactly(name: seq<byte>)
    requires Portable(name)
    ensures CString(Shown(Text(ShortRun(Split(name))))) == name <==> forall l | l in Split(name) :: |l| < 128
  {
    hide Split, Text, CString, Readable;
    var ls := Split(name);
    SplitText(name);
    ShortRunText(ls);
    if forall l | l in ls :: |l| < 128 {
      assert Shown(name + [DOT]) == name;
      CStringOfText(name);
    } else {
      var l :| l in ls && |l| >= 128;
      NonEmptyName(name);
    }
  }

  lemma NonEmptyName(name: seq<byte>)
    requires Readable(Split(name))
    ensures name != []
  {
    if name == [] {
      EmptyNameUnreadable();
      assert false;
    }
  }

  lemma EmptyNameUnreadable()
    ensures !Readable(Split([]))
  {
    assert Split([]) == [[]];
    assert [] in Split([]);
  }

  /** When the two decoders agree: on every name that dns_read_name reads back this loop collects
      the same name exactly when every label is shorter than 128 bytes; so on every well-formed
      one. */
  lemma DecodersAgree(buffer: seq<byte>, received: nat, name: seq<byte>)
    requires Portable(name) && |buffer| == UDP_SIZE
    requires HEADER_SIZE + |name| + 2 <= received <= UDP_SIZE
    requires Holds(buffer, HEADER_SIZE, Encoded(Split(name)))
    ensures NameReadable(buffer, HEADER_SIZE)
    ensures NameOf(buffer, HEADER_SIZE).Some? && NameOf(buffer, HEADER_SIZE).value.0 == name
    ensures Decoded(buffer, received).Some?
    ensures CString(Shown(Decoded(buffer, received).value)) == name <==> forall l | l in Split(name) :: |l| < 128
    ensures WellFormed(name) ==> CString(Shown(Decoded(buffer, received).value)) == name
  {
    hide Holds, Split, Encoded, Decoded, CString, NameReadable, NameOf, Text;
    DecodedName(buffer, received, name);
    CollectedExactly(name);
    NameOfEncoded(buffer, HEADER_SIZE, name, HEADER_SIZE + |name| + 2);
  }

  // ---- The response ----

  const RESPONSE_FLAGS: seq<byte> := [0x81, 0x80]
  const ONE_QUESTION_ONE_ANSWER: seq<byte> := [0x00, 0x01, 0x00, 0x01, 0x00, 0x00, 0x00, 0x00]
  const JUMP_TO_QUESTION: seq<byte> := [0xc0, 0x0c]
  const ANSWER_FIELDS: seq<byte> := [0x00, 0x01, 0x00, 0x01, 0x00, 0x00, 0x00, 0x3c, 0x00, 0x04]

  function ResponseBytes(query: seq<byte>, address: seq<byte>): seq<byte>
    requires HEADER_SIZE <= |query|
  {
    query[..2] + RESPONSE_FLAGS + ONE_QUESTION_ONE_ANSWER + query[HEADER_SIZE..]
      + JUMP_TO_QUESTION + ANSWER_FIELDS + address
  }

  /** Builds the response to the first `received` bytes of the receive buffer; 16 bytes are added
      and nothing checks that they fit. */
  method BuildResponse(buffer: seq<byte>, received: nat, address: seq<byte>) returns (response: array<byte>, size: nat)
    requires |buffer| == UDP_SIZE && HEADER_SIZE <= received <= UDP_SIZE - 16 && |address| == 4
    ensures fresh(response) && response.Length == UDP_SIZE && size == received + 16
    ensures response[..size] == ResponseBytes(buffer[..received], address)
  {
    response := new byte[UDP_SIZE](_ => 0);
    var id, question := buffer[..2], buffer[HEADER_SIZE..received];
    assert id == buffer[..received][..2] && question == buffer[..received][HEADER_SIZE..];
    size := PutBytes(response, 0, id);
    assert response[..size] == id;
    size := PutBytes(response, size, RESPONSE_FLAGS);
    size := PutBytes(response, size, ONE_QUESTION_ONE_ANSWER);
    size := PutBytes(response, size, question);
    assert response[..size] == id + RESPONSE_FLAGS + ONE_QUESTION_ONE_ANSWER + question;
    size := PutBytes(response, size, JUMP_TO_QUESTION);
    size := PutBytes(response, size, ANSWER_FIELDS);
    size := PutBytes(response, size, address);
  }

  /** What the fixed bytes of the response say. */
  function ResponseHeader(id: word16): Header {
    Header(id, QR_RESPONSE, 0, 0, 0, 1, 1, 0, 0, 0, 0, 1, 1, 0, 0)
  }

  lemma ResponseHeaderBytes(query: seq<byte>)
    requires HEADER_SIZE <= |query|
    ensures HeaderBytes(ResponseHeader(Word16At(query, 0))) == query[..2] + RESPONSE_FLAGS + ONE_QUESTION_ONE_ANSWER
  {
  }

  /** A pointer to offset 12 reads as the question's name, wherever it stands. */
  lemma PointerReadsQuestion(data: seq<byte>, at: word16, name: seq<byte>, end: word16)
    requires Portable(name) && HEADER_SIZE < at && end == at + 2
    requires Holds(data, HEADER_SIZE, Encoded(Split(name))) && Holds(data, at, JUMP_TO_QUESTION)
    ensures NameReadable(data, at) && NameOf(data, at) == Some((name, end))
  {
    var ls := Split(name);
    SplitText(name);
    EncodedSpells(data, HEADER_SIZE, ls);
    HoldsAt(data, at, JUMP_TO_QUESTION, 0);
    HoldsAt(data, at, JUMP_TO_QUESTION, 1);
    assert Target(data, at) == HEADER_SIZE;
    assert Spells(data, at, ls);
    ReadSpelled(data, NAME_BUFFER, Start(at), ls);
    assert [] + Text(ls) == name + [DOT];
    MeasureAgrees(data, at, NAME_BUFFER);
    assert Measure(data, at) == 2;
    hide Spells, Measure, Settles, Outcome, Holds, Text, Split;
    NameOfText(data, at, name, end);
  }

  /** The response, byte by byte: the query's id, the flags and counts, the query's question, and an
      answer with a pointer to offset 12, type A, class IN, 60 seconds, and the address. */
  lemma ResponseWire(query: seq<byte>, address: seq<byte>)
    requires HEADER_SIZE <= |query|
    ensures ResponseBytes(query, address)
         == query[..2] + [0x81, 0x80, 0, 1, 0, 1, 0, 0, 0, 0] + query[12..]
            + [0xC0, 12, 0, 1, 0, 1, 0, 0, 0, 60, 0, 4] + address
  {
    var question := query[12..];
    assert query[..2] + RESPONSE_FLAGS + ONE_QUESTION_ONE_ANSWER == query[..2] + [0x81, 0x80, 0, 1, 0, 1, 0, 0, 0, 0];
    assert question + JUMP_TO_QUESTION + ANSWER_FIELDS == question + [0xC0, 12, 0, 1, 0, 1, 0, 0, 0, 60, 0, 4];
  }

  lemma FixedFields(name: seq<byte>, address: seq<byte>)
    ensures AnswerFields(Answer(name, TYPE_A, CLASS_IN, 60, 4, address)) == ANSWER_FIELDS + address
  {
  }

  /** Compressed response round trip: for every query made of a header and one question, the
      response is parsed into the same id and question, and an answer for the question's own name
      with the given address. */
  lemma ResponseRoundTrip(query: seq<byte>, q: Question, address: seq<byte>, rest: seq<byte>)
    requires Portable(q.qname) && |address| == 4
    requires HEADER_SIZE <= |query| && query[HEADER_SIZE..] == QuestionBytes(q)
    ensures var data := ResponseBytes(query, address) + rest;
            && Parsable(data)
            && PacketOf(data) == Some(Packet(ResponseHeader(Word16At(query, 0)), q,
                                             Some(Answer(q.qname, TYPE_A, CLASS_IN, 60, 4, address))))
  {
    hide ResponseBytes, QuestionBytes, HeaderBytes, HeaderOf, Holds, NameReadable, NameOf,
      AnswerStart, AnswerReadable, AnswerOf, AnswerFields, Word16At, Word32At;
    var data := ResponseBytes(query, address) + rest;
    var header := ResponseHeader(Word16At(query, 0));
    var end: word16 := HEADER_SIZE + |q.qname| + 2;
    ResponseLayout(query, q, address, rest);
    HeaderRoundTrip(header, data[HEADER_SIZE..]);
    QuestionRoundTrip(data, HEADER_SIZE, q, end);
    assert JUMP_TO_QUESTION + ANSWER_FIELDS + address == JUMP_TO_QUESTION + (ANSWER_FIELDS + address);
    HoldsAppend(data, end + 4, JUMP_TO_QUESTION, ANSWER_FIELDS + address);
    FixedFields(q.qname, address);
    PointerReadsQuestion(data, end + 4, q.qname, end + 6);
    AnswerStartAt(data, end);
    AnswerRoundTrip(data, Answer(q.qname, TYPE_A, CLASS_IN, 60, 4, address), end + 6);
  }

  lemma ResponseLayout(query: seq<byte>, q: Question, address: seq<byte>, rest: seq<byte>)
    requires |address| == 4 && HEADER_SIZE <= |query| && query[HEADER_SIZE..] == QuestionBytes(q)
    ensures var data := ResponseBytes(query, address) + rest;
            && |data| >= HEADER_SIZE
            && data == HeaderBytes(ResponseHeader(Word16At(query, 0))) + data[HEADER_SIZE..]
            && Holds(data, HEADER_SIZE, QuestionBytes(q))
            && Holds(data, HEADER_SIZE + |q.qname| + 6, JUMP_TO_QUESTION + ANSWER_FIELDS + address)
  {
    var data := ResponseBytes(query, address) + rest;
    var front := query[..2] + RESPONSE_FLAGS + ONE_QUESTION_ONE_ANSWER;
    var section := JUMP_TO_QUESTION + ANSWER_FIELDS + address;
    WireLength(q.qname);
    ResponseHeaderBytes(query);
    assert |QuestionBytes(q)| == |q.qname| + 6;
    hide QuestionBytes, HeaderBytes;
    Regroup(front, QuestionBytes(q), JUMP_TO_QUESTION, ANSWER_FIELDS, address, rest);
    HoldsInConcat(front, QuestionBytes(q), section + rest);
    HoldsInConcat(front + QuestionBytes(q), section, rest);
  }

  lemma Regroup(a: seq<byte>, b: seq<byte>, c: seq<byte>, d: seq<byte>, e: seq<byte>, f: seq<byte>)
    ensures a + b + c + d + e + f == a + b + (c + d + e) + f == a + b + ((c + d + e) + f)
  {
  }
}
