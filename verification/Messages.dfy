/** DNS messages: the header of DNS_server/dns_packet.h, the parsers of DNS_server/dns_packet.c and
    the serialisation in `dns_send_packet` of DNS_server/dns_server.c.

    A parser reads a buffer; `...Readable` says that it stays inside it (the source's behaviour is
    undefined otherwise), `...Of` is what it finds, None being the source's -1. */
module Messages {
  import opened Bytes
  import opened Names
  import opened NameReader
  import opened NameWriter

  type bit = b: int | 0 <= b < 2
  type nibble = n: int | 0 <= n < 16

  const HEADER_SIZE := 12
  const NAME_BUFFER := 256
  const UDP_SIZE := 512
  const QR_QUERY: bit := 0
  const QR_RESPONSE: bit := 1
  const TYPE_A: word16 := 1
  const CLASS_IN: word16 := 1

  datatype Header = Header(
    id: word16,
    qr: bit, opcode: nibble, aa: bit, tc: bit, rd: bit,
    ra: bit, z: bit, ad: bit, cd: bit, rcode: nibble,
    qdcount: word16, ancount: word16, nscount: word16, arcount: word16)

  datatype Question = Question(qname: seq<byte>, qtype: word16, qclass: word16)

  datatype Answer = Answer(
    name: seq<byte>, rtype: word16, rclass: word16, ttl: word32, rdlength: word16, rdata: seq<byte>)

  datatype Packet = Packet(header: Header, question: Question, answer: Option<Answer>)

  // ---- The header: struct dns_header copied out, and copied in ----

  /** The two flag bytes, in the bit order of RFC 1035 section 4.1.1 and RFC 4035 section 3.2. */
  function FlagByte1(h: Header): byte {
    (h.qr * 128 + h.opcode * 8 + h.aa * 4 + h.tc * 2 + h.rd) as byte
  }

  function FlagByte2(h: Header): byte {
    (h.ra * 128 + h.z * 64 + h.ad * 32 + h.cd * 16 + h.rcode) as byte
  }

  function HeaderBytes(h: Header): (bs: seq<byte>)
    ensures |bs| == HEADER_SIZE
  {
    Be16(h.id) + [FlagByte1(h), FlagByte2(h)] + Be16(h.qdcount) + Be16(h.ancount) + Be16(h.nscount) + Be16(h.arcount)
  }

  /** The flags as one word, from QR down to RCODE (RFC 1035 section 4.1.1; AD and CD as in RFC 4035
      section 3.2). */
  function FlagWord(h: Header): int {
    h.qr * 0x8000 + h.opcode * 0x800 + h.aa * 0x400 + h.tc * 0x200 + h.rd * 0x100
    + h.ra * 0x80 + h.z * 0x40 + h.ad * 0x20 + h.cd * 0x10 + h.rcode
  }

  lemma FlagsWire(h: Header)
    ensures FlagByte1(h) as int == FlagWord(h) / 256 && FlagByte2(h) as int == FlagWord(h) % 256
  {
    assert FlagWord(h) == FlagByte1(h) as int * 256 + FlagByte2(h) as int;
  }

  /** The header on the wire: six words, high byte first. */
  lemma HeaderWire(h: Header)
    ensures 0 <= FlagWord(h) < 0x1_0000
    ensures HeaderBytes(h) == [
              (h.id / 256) as byte, (h.id % 256) as byte,
              (FlagWord(h) / 256) as byte, (FlagWord(h) % 256) as byte,
              (h.qdcount / 256) as byte, (h.qdcount % 256) as byte,
              (h.ancount / 256) as byte, (h.ancount % 256) as byte,
              (h.nscount / 256) as byte, (h.nscount % 256) as byte,
              (h.arcount / 256) as byte, (h.arcount % 256) as byte]
  {
    hide FlagByte1, FlagByte2, FlagWord;
    FlagsWire(h);
  }

  /** dns_header_parse: the struct is copied whole and its counters converted. */
  function HeaderOf(data: seq<byte>): Header
    requires HEADER_SIZE <= |data|
  {
    var f, g := data[2] as int, data[3] as int;
    Header(Word16At(data, 0),
           f / 128, f / 8 % 16, f / 4 % 2, f / 2 % 2, f % 2,
           g / 128, g / 64 % 2, g / 32 % 2, g / 16 % 2, g % 16,
           Word16At(data, 4), Word16At(data, 6), Word16At(data, 8), Word16At(data, 10))
  }

  lemma Flags1RoundTrip(h: Header)
    ensures var f := FlagByte1(h) as int;
            f / 128 == h.qr && f / 8 % 16 == h.opcode && f / 4 % 2 == h.aa && f / 2 % 2 == h.tc && f % 2 == h.rd
  {
  }

  lemma Flags2RoundTrip(h: Header)
    ensures var g := FlagByte2(h) as int;
            g / 128 == h.ra && g / 64 % 2 == h.z && g / 32 % 2 == h.ad && g / 16 % 2 == h.cd && g % 16 == h.rcode
  {
  }

  lemma Word16RoundTrip(data: seq<byte>, at: nat, w: word16)
    requires at + 2 <= |data| && data[at] == Be16(w)[0] && data[at + 1] == Be16(w)[1]
    ensures Word16At(data, at) == w
  {
  }

  lemma HeaderRoundTrip(h: Header, rest: seq<byte>)
    ensures HeaderOf(HeaderBytes(h) + rest) == h
  {
    var data := HeaderBytes(h) + rest;
    Flags1RoundTrip(h);
    Flags2RoundTrip(h);
    Word16RoundTrip(data, 0, h.id);
    Word16RoundTrip(data, 4, h.qdcount);
    Word16RoundTrip(data, 6, h.ancount);
    Word16RoundTrip(data, 8, h.nscount);
    Word16RoundTrip(data, 10, h.arcount);
  }

  lemma FlagBytesRoundTrip(data: seq<byte>)
    requires HEADER_SIZE <= |data|
    ensures FlagByte1(HeaderOf(data)) == data[2] && FlagByte2(HeaderOf(data)) == data[3]
  {
    FlagBits1(data[2] as int);
    FlagBits2(data[3] as int);
  }

  lemma FlagBits1(f: nat)
    requires f < 0x100
    ensures f / 128 * 128 + f / 8 % 16 * 8 + f / 4 % 2 * 4 + f / 2 % 2 * 2 + f % 2 == f
  {
    var a, b, c := f / 2, f / 4, f / 8;
    assert f == a * 2 + f % 2;
    assert a == b * 2 + a % 2;
    assert b == c * 2 + b % 2;
    assert c == f / 128 * 16 + c % 16;
  }

  lemma FlagBits2(g: nat)
    requires g < 0x100
    ensures g / 128 * 128 + g / 64 % 2 * 64 + g / 32 % 2 * 32 + g / 16 % 2 * 16 + g % 16 == g
  {
    var a, b, c := g / 16, g / 32, g / 64;
    assert g == a * 16 + g % 16;
    assert a == b * 2 + a % 2;
    assert b == c * 2 + b % 2;
    assert c == g / 128 * 2 + c % 2;
  }

  lemma Be16RoundTrip(data: seq<byte>, at: nat)
    requires at + 2 <= |data|
    ensures Be16(Word16At(data, at)) == data[at..at + 2]
  {
  }

  /** No bit of the twelve bytes is lost. */
  lemma HeaderBytesRoundTrip(data: seq<byte>)
    requires HEADER_SIZE <= |data|
    ensures HeaderBytes(HeaderOf(data)) == data[..HEADER_SIZE]
  {
    FlagBytesRoundTrip(data);
    Be16RoundTrip(data, 0);
    Be16RoundTrip(data, 4);
    Be16RoundTrip(data, 6);
    Be16RoundTrip(data, 8);
    Be16RoundTrip(data, 10);
    assert data[..HEADER_SIZE]
        == data[0..2] + [data[2], data[3]] + data[4..6] + data[6..8] + data[8..10] + data[10..12];
  }

  // ---- Names inside messages ----

  ghost predicate NameReadable(data: seq<byte>, at: word16) {
    Settles(data, NAME_BUFFER, Start(at))
  }

  /** The name read into a 256-byte buffer and copied with strdup, and the offset after it. */
  ghost function NameOf(data: seq<byte>, at: word16): Option<(seq<byte>, word16)>
    requires NameReadable(data, at)
  {
    var w := Outcome(data, NAME_BUFFER, Start(at));
    if w.Finished? then Some((CString(Shown(w.text)), w.total)) else None
  }

  lemma {:induction false} CStringCut(s: seq<byte>, rest: seq<byte>)
    ensures CString(s + [0] + rest) == CString(s)
  {
    if s == [] {
      assert s + [0] + rest == [0] + rest;
    } else {
      assert (s + [0] + rest)[1..] == s[1..] + [0] + rest;
      CStringCut(s[1..], rest);
    }
  }

  method ParseName(data: seq<byte>, at: word16) returns (name: Option<seq<byte>>, end: int)
    requires NameReadable(data, at)
    ensures match NameOf(data, at)
            case None => name == None && end == -1
            case Some((s, e)) => name == Some(s) && end == e
  {
    var buffer := new byte[NAME_BUFFER];
    end := ReadName(buffer, data, at, NAME_BUFFER);
    if end < 0 {
      return None, -1;
    }
    ghost var w := Outcome(data, NAME_BUFFER, Start(at));
    CStringCut(Shown(w.text), buffer[|Shown(w.text)| + 1..]);
    assert buffer[..] == Shown(w.text) + [0] + buffer[|Shown(w.text)| + 1..];
    name := Some(CString(buffer[..]));
  }

  // ---- The question ----

  ghost predicate QuestionReadable(data: seq<byte>, at: word16) {
    && NameReadable(data, at)
    && (NameOf(data, at).Some? ==> NameOf(data, at).value.1 + 4 <= |data|)
  }

  ghost function QuestionOf(data: seq<byte>, at: word16): Option<(Question, nat)>
    requires QuestionReadable(data, at)
  {
    match NameOf(data, at)
    case None => None
    case Some((name, end)) => Some((Question(name, Word16At(data, end), Word16At(data, end + 2)), end + 4))
  }

  method ParseQuestion(data: seq<byte>, at: word16) returns (question: Option<Question>, end: nat)
    requires QuestionReadable(data, at)
    ensures match QuestionOf(data, at)
            case None => question == None && end == at
            case Some((q, e)) => question == Some(q) && end == e
  {
    var name, nameEnd := ParseName(data, at);
    if nameEnd < 0 {
      return None, at;
    }
    end := nameEnd;
    question := Some(Question(name.value, Word16At(data, end), Word16At(data, end + 2)));
    end := end + 4;
  }

  /** The receive buffer is large enough for any question whose pointers go backward, whatever
      else it holds: parsing it ends and stays inside. */
  lemma QuestionStaysInside(data: seq<byte>)
    requires |data| == UDP_SIZE && Backward(data, NAME_BUFFER, Start(HEADER_SIZE))
    ensures QuestionReadable(data, HEADER_SIZE)
  {
    BackwardSettles(data, HEADER_SIZE, NAME_BUFFER);
    var n: nat :| Settled(Run(data, NAME_BUFFER, Start(HEADER_SIZE), n));
    OutcomeIs(data, NAME_BUFFER, Start(HEADER_SIZE), n);
    EndBound(data, NAME_BUFFER, HEADER_SIZE, Start(HEADER_SIZE), n);
  }

  // ---- The answer ----

  /** Where the answer starts: after the question at offset 12, as a uint16_t. */
  ghost function AnswerStart(data: seq<byte>): word16
    requires NameReadable(data, HEADER_SIZE) && NameOf(data, HEADER_SIZE).Some?
  {
    (NameOf(data, HEADER_SIZE).value.1 + 4) % 0x1_0000
  }

  lemma AnswerStartAt(data: seq<byte>, end: word16)
    requires NameReadable(data, HEADER_SIZE) && NameOf(data, HEADER_SIZE).Some?
    requires NameOf(data, HEADER_SIZE).value.1 == end && end + 4 < 0x1_0000
    ensures AnswerStart(data) == end + 4
  {
  }

  ghost predicate AnswerReadable(data: seq<byte>) {
    && NameReadable(data, HEADER_SIZE)
    && (NameOf(data, HEADER_SIZE).Some? ==>
          && NameReadable(data, AnswerStart(data))
          && (NameOf(data, AnswerStart(data)).Some? ==>
                var e := NameOf(data, AnswerStart(data)).value.1;
                e + 10 <= |data| && e + 10 + Word16At(data, e + 8) <= |data|))
  }

  /** When the receive buffer is large enough for the answer, pointers going backward: its name stays
      inside after every question that ends by byte 255, that is for every uncompressed name of at
      most 237 bytes; and then, since the length of the data is not checked, the answer stays
      inside exactly when its fields and its data end by byte 512. */
  lemma AnswerStaysInside(data: seq<byte>)
    requires |data| == UDP_SIZE && Backward(data, NAME_BUFFER, Start(HEADER_SIZE))
    ensures NameReadable(data, HEADER_SIZE)
    ensures NameOf(data, HEADER_SIZE).Some? && AnswerStart(data) <= 255 &&
            Backward(data, NAME_BUFFER, Start(AnswerStart(data))) ==>
              && NameReadable(data, AnswerStart(data))
              && match NameOf(data, AnswerStart(data))
                 case None => AnswerReadable(data)
                 case Some((_, e)) =>
                   AnswerReadable(data) <==> e + 10 <= UDP_SIZE && e + 10 + Word16At(data, e + 8) <= UDP_SIZE
  {
    hide NameOf, Word16At;
    BackwardSettles(data, HEADER_SIZE, NAME_BUFFER);
    if NameOf(data, HEADER_SIZE).Some? && AnswerStart(data) <= 255 {
      var at := AnswerStart(data);
      if Backward(data, NAME_BUFFER, Start(at)) {
        BackwardSettles(data, at, NAME_BUFFER);
      }
    }
  }

  ghost function AnswerOf(data: seq<byte>): Option<Answer>
    requires AnswerReadable(data)
  {
    match NameOf(data, HEADER_SIZE)
    case None => None
    case Some(_) =>
      match NameOf(data, AnswerStart(data))
      case None => None
      case Some((name, e)) =>
        var rdlength := Word16At(data, e + 8);
        Some(Answer(name, Word16At(data, e), Word16At(data, e + 2), Word32At(data, e + 4), rdlength,
                    data[e + 10..e + 10 + rdlength]))
  }

  method ParseAnswer(data: seq<byte>) returns (answer: Option<Answer>)
    requires AnswerReadable(data)
    ensures answer == AnswerOf(data)
  {
    var _, offset := ParseName(data, HEADER_SIZE);
    if offset < 0 {
      return None;
    }
    offset := offset + 4;
    var name, at := ParseName(data, offset % 0x1_0000);
    if at < 0 {
      return None;
    }
    var rtype, rclass := Word16At(data, at), Word16At(data, at + 2);
    var ttl, rdlength := Word32At(data, at + 4), Word16At(data, at + 8);
    at := at + 10;
    answer := Some(Answer(name.value, rtype, rclass, ttl, rdlength, data[at..at + rdlength]));
  }

  /** An answer's fields on the wire, after its name. */
  function AnswerFields(a: Answer): seq<byte> {
    Be16(a.rtype) + Be16(a.rclass) + Be16(a.ttl / 0x1_0000) + Be16(a.ttl % 0x1_0000) + Be16(a.rdlength) + a.rdata
  }

  lemma FieldsAt(data: seq<byte>, e: nat, a: Answer)
    requires Holds(data, e, AnswerFields(a)) && |a.rdata| == a.rdlength
    ensures e + 10 + a.rdlength <= |data| && data[e + 10..e + 10 + a.rdlength] == a.rdata
    ensures Word16At(data, e) == a.rtype && Word16At(data, e + 2) == a.rclass
    ensures Word32At(data, e + 4) == a.ttl && Word16At(data, e + 8) == a.rdlength
  {
    hide Holds, Be16, Word16At;
    var t, c, n := Be16(a.rtype), Be16(a.rclass), Be16(a.rdlength);
    var hi, lo := Be16(a.ttl / 0x1_0000), Be16(a.ttl % 0x1_0000);
    assert AnswerFields(a) == t + c + hi + lo + n + a.rdata && |t + c + hi + lo + n| == 10;
    HoldsAppend(data, e, t + c + hi + lo + n, a.rdata);
    HoldsAppend(data, e, t + c + hi + lo, n);
    HoldsAppend(data, e, t + c + hi, lo);
    HoldsAppend(data, e, t + c, hi);
    HoldsAppend(data, e, t, c);
    HoldsSlice(data, e + 10, a.rdata);
    HoldsWord(data, e, a.rtype);
    HoldsWord(data, e + 2, a.rclass);
    HoldsWord(data, e + 4, a.ttl / 0x1_0000);
    HoldsWord(data, e + 6, a.ttl % 0x1_0000);
    HoldsWord(data, e + 8, a.rdlength);
  }

  /** Answer round trip: whatever the name before it (plain or compressed), the type, the class, the
      time to live and the data, the fields on the wire are parsed back. */
  lemma AnswerRoundTrip(data: seq<byte>, a: Answer, e: word16)
    requires NameReadable(data, HEADER_SIZE) && NameOf(data, HEADER_SIZE).Some?
    requires NameReadable(data, AnswerStart(data)) && NameOf(data, AnswerStart(data)) == Some((a.name, e))
    requires |a.rdata| == a.rdlength && Holds(data, e, AnswerFields(a))
    ensures AnswerReadable(data) && AnswerOf(data) == Some(a)
  {
    hide NameReadable, NameOf, AnswerStart, Word16At, Word32At, AnswerFields, Holds;
    FieldsAt(data, e, a);
  }

  // ---- The whole message ----

  ghost predicate Parsable(data: seq<byte>) {
    && HEADER_SIZE <= |data|
    && QuestionReadable(data, HEADER_SIZE)
    && (HeaderOf(data).ancount > 0 ==> AnswerReadable(data))
  }

  /** dns_request_parse: the question is required, the answer only if ancount is positive. */
  ghost function PacketOf(data: seq<byte>): Option<Packet>
    requires Parsable(data)
  {
    var header := HeaderOf(data);
    match QuestionOf(data, HEADER_SIZE)
    case None => None
    case Some((question, _)) =>
      if header.ancount == 0 then Some(Packet(header, question, None))
      else
        match AnswerOf(data)
        case None => None
        case Some(answer) => Some(Packet(header, question, Some(answer)))
  }

  method ParseRequest(data: seq<byte>) returns (packet: Option<Packet>)
    requires Parsable(data)
    ensures packet == PacketOf(data)
  {
    var header := HeaderOf(data);
    var question, _ := ParseQuestion(data, HEADER_SIZE);
    if question == None {
      return None;
    }
    if header.ancount > 0 {
      var answer := ParseAnswer(data);
      if answer == None {
        return None;
      }
      return Some(Packet(header, question.value, answer));
    }
    packet := Some(Packet(header, question.value, None));
  }

  // ---- Queries ----

  function QuestionBytes(q: Question): seq<byte> {
    Encoded(Split(q.qname)) + Be16(q.qtype) + Be16(q.qclass)
  }

  /** The question on the wire: the name, then type before class, high byte first. */
  lemma QuestionWire(q: Question)
    ensures QuestionBytes(q) == Encoded(Split(q.qname))
                                + [(q.qtype / 256) as byte, (q.qtype % 256) as byte]
                                + [(q.qclass / 256) as byte, (q.qclass % 256) as byte]
  {
  }

  function QueryBytes(header: Header, question: Question): seq<byte> {
    HeaderBytes(header) + QuestionBytes(question)
  }

  /** The memcpy of a few bytes into the packet buffer. */
  method PutBytes(buffer: array<byte>, offset: nat, bytes: seq<byte>) returns (next: nat)
    requires offset + |bytes| <= buffer.Length
    modifies buffer
    ensures next == offset + |bytes|
    ensures buffer[..next] == old(buffer[..offset]) + bytes
    ensures buffer[next..] == old(buffer[next..])
  {
    forall k | 0 <= k < |bytes| {
      buffer[offset + k] := bytes[k];
    }
    next := offset + |bytes|;
  }

  /** The bytes dns_send_packet hands to sendto: header and question, never the answer. The
      buffer holds 512 bytes and the source does not check the name's length. */
  method Serialize(packet: Packet) returns (buffer: array<byte>, offset: nat)
    requires 0 !in packet.question.qname && |packet.question.qname| + 18 <= UDP_SIZE
    ensures fresh(buffer) && buffer.Length == UDP_SIZE == 512
    ensures offset == |packet.question.qname| + 18
    ensures buffer[..offset] == QueryBytes(packet.header, packet.question)
  {
    var q := packet.question;
    buffer := new byte[UDP_SIZE];
    offset := PutBytes(buffer, 0, HeaderBytes(packet.header));
    assert buffer[..offset] == HeaderBytes(packet.header);
    var nameLength := EncodeName(buffer, offset, q.qname);
    offset := offset + nameLength;
    assert buffer[..offset] == HeaderBytes(packet.header) + Encoded(Split(q.qname));
    offset := PutBytes(buffer, offset, Be16(q.qtype));
    offset := PutBytes(buffer, offset, Be16(q.qclass));
    assert buffer[..offset] == HeaderBytes(packet.header) + QuestionBytes(q);
  }

  /** dns_create_query_packet: everything zero but the id, RD, one question of type A. */
  function CreateQuery(id: word16, qname: seq<byte>): Packet {
    Packet(Header(id, QR_QUERY, 0, 0, 0, 1, 0, 0, 0, 0, 0, 1, 0, 0, 0), Question(qname, TYPE_A, CLASS_IN), None)
  }

  /** A created query on the wire, byte by byte: only the id, RD, QDCOUNT, and type and class 1. */
  lemma CreatedQueryWire(id: word16, name: seq<byte>)
    ensures var query := CreateQuery(id, name);
            QueryBytes(query.header, query.question)
            == Be16(id) + [1, 0, 0, 1, 0, 0, 0, 0, 0, 0] + Encoded(Split(name)) + [0, 1, 0, 1]
  {
  }

  /** A name the message codec carries unchanged. Every well-formed name is one. */
  predicate Portable(name: seq<byte>) {
    0 !in name && Readable(Split(name)) && |name| + 1 < NAME_BUFFER
  }

  lemma WellFormedPortable(name: seq<byte>)
    requires WellFormed(name)
    ensures Portable(name) && |name| + 18 <= 271 <= UDP_SIZE
  {
  }

  /** What a message parser makes of a name that was read as `name`. */
  lemma NameOfText(data: seq<byte>, at: word16, name: seq<byte>, end: word16)
    requires 0 !in name && Settles(data, NAME_BUFFER, Start(at))
    requires var w := Outcome(data, NAME_BUFFER, Start(at)); w.Finished? && w.text == name + [DOT] && w.total == end
    ensures NameReadable(data, at) && NameOf(data, at) == Some((name, end))
  {
    hide Settles, Outcome;
    assert Shown(name + [DOT]) == name;
    CStringOfText(name);
  }

  lemma NameOfEncoded(data: seq<byte>, at: word16, name: seq<byte>, end: word16)
    requires Portable(name) && end == at + |name| + 2
    requires Holds(data, at, Encoded(Split(name)))
    ensures NameReadable(data, at) && NameOf(data, at) == Some((name, end))
  {
    NameRoundTrip(data, at, name, NAME_BUFFER);
    NameOfText(data, at, name, end);
  }

  /** Exactly which readable names a parser takes: those of at most 254 bytes. */
  lemma NameParsedExactly(data: seq<byte>, at: word16, name: seq<byte>, end: word16)
    requires 0 !in name && Readable(Split(name)) && end == at + |name| + 2
    requires Holds(data, at, Encoded(Split(name)))
    ensures NameReadable(data, at)
    ensures NameOf(data, at) == if |name| <= 254 then Some((name, end)) else None
  {
    if |name| <= 254 {
      NameOfEncoded(data, at, name, end);
    } else {
      hide Split, Text, Encoded, Holds, Outcome, Settles;
      var ls := Split(name);
      SplitText(name);
      EncodedSpells(data, at, ls);
      ReadSpelled(data, NAME_BUFFER, Start(at), ls);
    }
  }

  lemma HoldsWord(data: seq<byte>, at: nat, w: word16)
    requires Holds(data, at, Be16(w))
    ensures at + 2 <= |data| && Word16At(data, at) == w
  {
    assert data[at + 0] == Be16(w)[0] && data[at + 1] == Be16(w)[1];
  }

  /** A question laid out as dns_send_packet does is parsed back, up to its last byte. */
  lemma QuestionRoundTrip(data: seq<byte>, at: word16, q: Question, end: word16)
    requires Portable(q.qname) && end == at + |q.qname| + 2 && end + 4 < 0x1_0000
    requires Holds(data, at, QuestionBytes(q))
    ensures QuestionReadable(data, at)
    ensures NameOf(data, at) == Some((q.qname, end))
    ensures QuestionOf(data, at) == Some((q, end + 4))
    ensures Holds(data, at, Encoded(Split(q.qname)))
  {
    WireLength(q.qname);
    HoldsAppend(data, at, Encoded(Split(q.qname)) + Be16(q.qtype), Be16(q.qclass));
    HoldsAppend(data, at, Encoded(Split(q.qname)), Be16(q.qtype));
    HoldsWord(data, end, q.qtype);
    HoldsWord(data, end + 2, q.qclass);
    NameOfEncoded(data, at, q.qname, end);
  }

  /** Query round trip: whatever the header, the bytes sent are parsed back into the same header
      and question, whatever follows them in the receiver's buffer. The answer is never sent, so
      the whole packet comes back exactly when ANCOUNT is zero, as in every created query. */
  lemma QueryRoundTrip(header: Header, q: Question, rest: seq<byte>)
    requires Portable(q.qname)
    ensures var data := QueryBytes(header, q) + rest;
            && |QueryBytes(header, q)| == |q.qname| + 18
            && HEADER_SIZE <= |data| && HeaderOf(data) == header
            && QuestionReadable(data, HEADER_SIZE)
            && QuestionOf(data, HEADER_SIZE) == Some((q, |QueryBytes(header, q)|))
            && (Parsable(data) && PacketOf(data) == Some(Packet(header, q, None)) <==> header.ancount == 0)
  {
    hide Holds, Encoded, Split, HeaderBytes, HeaderOf, QuestionReadable, QuestionOf, QuestionBytes,
      AnswerReadable, AnswerOf;
    var data := QueryBytes(header, q) + rest;
    QueryParts(header, q, rest);
    QuestionRoundTrip(data, HEADER_SIZE, q, HEADER_SIZE + |q.qname| + 2);
  }

  lemma QueryParts(header: Header, q: Question, rest: seq<byte>)
    ensures var data := QueryBytes(header, q) + rest;
            && |QueryBytes(header, q)| == |q.qname| + 18
            && HEADER_SIZE <= |data| && HeaderOf(data) == header
            && Holds(data, HEADER_SIZE, QuestionBytes(q))
  {
    hide Holds, Encoded, Split, HeaderBytes, HeaderOf;
    WireLength(q.qname);
    assert QueryBytes(header, q) + rest == HeaderBytes(header) + (QuestionBytes(q) + rest);
    HeaderRoundTrip(header, QuestionBytes(q) + rest);
    HoldsInConcat(HeaderBytes(header), QuestionBytes(q), rest);
  }

  function MessageBytes(header: Header, q: Question, a: Answer): seq<byte> {
    QueryBytes(header, q) + Encoded(Split(a.name)) + AnswerFields(a)
  }

  /** Message round trip: a header that announces an answer, a question, and an answer for any name,
      of any type, class, time to live and data, are parsed back into the same packet. */
  lemma MessageRoundTrip(header: Header, q: Question, a: Answer, rest: seq<byte>)
    requires Portable(q.qname) && Portable(a.name) && header.ancount > 0 && |a.rdata| == a.rdlength
    ensures var data := MessageBytes(header, q, a) + rest;
            Parsable(data) && PacketOf(data) == Some(Packet(header, q, Some(a)))
  {
    hide Holds, NameReadable, NameOf, AnswerStart, AnswerReadable, AnswerOf, HeaderOf, MessageBytes;
    var data := MessageBytes(header, q, a) + rest;
    var end: word16 := HEADER_SIZE + |q.qname| + 2;
    var e: word16 := end + 4 + |a.name| + 2;
    MessageParts(header, q, a, rest);
    QuestionRoundTrip(data, HEADER_SIZE, q, end);
    AnswerStartAt(data, end);
    NameOfEncoded(data, end + 4, a.name, e);
    AnswerRoundTrip(data, a, e);
  }

  lemma MessageParts(header: Header, q: Question, a: Answer, rest: seq<byte>)
    ensures var data := MessageBytes(header, q, a) + rest;
            && HEADER_SIZE <= |data| && HeaderOf(data) == header
            && Holds(data, HEADER_SIZE, QuestionBytes(q))
            && Holds(data, HEADER_SIZE + |q.qname| + 6, Encoded(Split(a.name)))
            && Holds(data, HEADER_SIZE + |q.qname| + 6 + |a.name| + 2, AnswerFields(a))
  {
    hide Holds, Encoded, Split, AnswerFields, QuestionBytes, HeaderBytes, HeaderOf;
    var query, name, fields := QueryBytes(header, q), Encoded(Split(a.name)), AnswerFields(a);
    var data := MessageBytes(header, q, a) + rest;
    assert data == query + (name + fields + rest);
    assert data == query + name + (fields + rest);
    QueryParts(header, q, name + fields + rest);
    WireLength(a.name);
    HoldsInConcat(query, name, fields + rest);
    HoldsInConcat(query + name, fields, rest);
  }
}
