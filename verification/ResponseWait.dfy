/** `dns_wait_response` and `handle_dns_response` of DNS_server/dns_server.c. The socket and the
    clock are inputs: for every turn of the loop, the time read at its head and what select and
    recvfrom would report. */
module ResponseWait {
  import opened Bytes
  import opened NameWriter
  import opened Messages
  import opened Responder

  datatype Poll =
    | SelectInterrupted
    | SelectFailed
    | Quiet                       // select timed out after a second
    | ReceiveInterrupted
    | ReceiveFailed
    | Datagram(bytes: seq<byte>)

  datatype Turn = Turn(now: int, poll: Poll)

  function Zeros(n: nat): seq<byte> {
    seq(n, _ => 0)
  }

  /** recvfrom into a zeroed buffer of 512 bytes, which cuts a longer datagram. */
  function Padded(bytes: seq<byte>): (buffer: seq<byte>)
    ensures |buffer| == UDP_SIZE == 512
    ensures forall k | 0 <= k < 512 :: buffer[k] == if k < |bytes| then bytes[k] else 0
  {
    if |bytes| > UDP_SIZE then bytes[..UDP_SIZE] else bytes + Zeros(UDP_SIZE - |bytes|)
  }

  /** If there is a datagram, the parser can look at it without leaving the receive buffer. */
  ghost predicate SafeTurn(turn: Turn) {
    turn.poll.Datagram? ==> Parsable(Padded(turn.poll.bytes))
  }

  ghost function Received(turn: Turn): Option<Packet> {
    if turn.poll.Datagram? && SafeTurn(turn) then PacketOf(Padded(turn.poll.bytes)) else None
  }

  ghost predicate Wanted(turn: Turn, id: word16) {
    match Received(turn)
    case None => false
    case Some(packet) => packet.header.id == id && packet.header.qr == QR_RESPONSE
  }

  /** The loop gets as far as polling in turn i: never out of time, and no failure of select or
      recvfrom and no wanted response before. Silence, interruptions and other datagrams, parsable
      or not, never end it. */
  ghost predicate Polls(turns: nat -> Turn, id: word16, start: int, timeout: int, i: nat) {
    && (forall j: nat | j <= i :: turns(j).now - start < timeout)
    && (forall j: nat | j < i ::
          turns(j).poll != SelectFailed && turns(j).poll != ReceiveFailed && !Wanted(turns(j), id))
  }

  /** Turn i is where the loop stops with success: it gets there, and finds a wanted response.
      There is at most one such turn. */
  ghost predicate FirstWanted(turns: nat -> Turn, id: word16, start: int, timeout: int, i: nat) {
    Polls(turns, id, start, timeout, i) && Wanted(turns(i), id)
  }

  /** What the wait comes to: 0, and one callback with the packet of the turn that matched; or -1
      and none, no turn being the one. */
  ghost predicate Waited(turns: nat -> Turn, id: word16, start: int, timeout: int, hasCallback: bool,
                         r: int, calls: seq<Packet>, at: nat) {
    if r == 0 then
      FirstWanted(turns, id, start, timeout, at) && calls == CalledWith(turns(at), hasCallback)
    else
      r == -1 && calls == [] && forall i: nat :: !FirstWanted(turns, id, start, timeout, i)
  }

  ghost function CalledWith(turn: Turn, hasCallback: bool): seq<Packet> {
    if hasCallback && Received(turn).Some? then [Received(turn).value] else []
  }

  method Receive(turn: Turn) returns (packet: Option<Packet>)
    requires SafeTurn(turn)
    ensures packet == Received(turn)
  {
    if turn.poll.Datagram? {
      packet := ParseRequest(Padded(turn.poll.bytes));
    } else {
      packet := None;
    }
  }

  /** Returns 0 and calls the callback once, with the first parsable response to query `id`, if the
      loop gets to one; otherwise returns -1 and never calls it. `at` is the turn that matched. */
  method WaitResponse(id: word16, timeout: int, hasCallback: bool, start: int, turns: nat -> Turn, ghost deadline: nat)
    returns (r: int, calls: seq<Packet>, ghost at: nat)
    requires forall i: nat | Polls(turns, id, start, timeout, i) :: SafeTurn(turns(i))
    requires turns(deadline).now - start >= timeout
    ensures r == 0 || (r == -1 && calls == [])
    ensures r == 0 <==> exists i: nat :: FirstWanted(turns, id, start, timeout, i)
    ensures Waited(turns, id, start, timeout, hasCallback, r, calls, at)
  {
    hide SafeTurn, Received, Wanted, FirstWanted, Polls;
    calls, at := [], 0;
    var i: nat := 0;
    while turns(i).now - start < timeout
      invariant i <= deadline
      invariant forall j: nat | j < i ::
                    && turns(j).now - start < timeout && !Wanted(turns(j), id)
                    && turns(j).poll != SelectFailed && turns(j).poll != ReceiveFailed
      decreases deadline - i
    {
      PollsNow(turns, id, start, timeout, i);
      if turns(i).poll.SelectFailed? || turns(i).poll.ReceiveFailed? {
        NeverWanted(turns, id, start, timeout, i);
        return -1, [], i;
      }
      var packet := Receive(turns(i));
      WantedIs(turns(i), id);
      if packet.Some? && packet.value.header.id == id && packet.value.header.qr == QR_RESPONSE {
        if hasCallback {
          calls := calls + [packet.value];
        }
        FirstWantedIs(turns, id, start, timeout, i);
        return 0, calls, i;
      }
      i := i + 1;
    }
    NeverWanted(turns, id, start, timeout, i);
    r := -1;
  }

  lemma PollsNow(turns: nat -> Turn, id: word16, start: int, timeout: int, i: nat)
    requires turns(i).now - start < timeout
    requires forall j: nat | j < i ::
               && turns(j).now - start < timeout && !Wanted(turns(j), id)
               && turns(j).poll != SelectFailed && turns(j).poll != ReceiveFailed
    ensures Polls(turns, id, start, timeout, i)
  {
    hide Wanted;
  }

  lemma WantedIs(turn: Turn, id: word16)
    ensures Wanted(turn, id) <==>
              var packet := Received(turn);
              packet.Some? && packet.value.header.id == id && packet.value.header.qr == 1
  {
  }

  lemma FirstWantedIs(turns: nat -> Turn, id: word16, start: int, timeout: int, i: nat)
    requires Polls(turns, id, start, timeout, i) && Wanted(turns(i), id)
    ensures FirstWanted(turns, id, start, timeout, i)
  {
  }

  /** The loop stopped at turn i, out of time or by an error, and had not found anything. */
  lemma NeverWanted(turns: nat -> Turn, id: word16, start: int, timeout: int, i: nat)
    requires forall j: nat | j < i :: !Wanted(turns(j), id)
    requires turns(i).now - start >= timeout || turns(i).poll == SelectFailed || turns(i).poll == ReceiveFailed
    ensures forall k: nat :: !FirstWanted(turns, id, start, timeout, k)
  {
    hide Received;
    if turns(i).now - start < timeout {
      FailureBringsNothing(turns(i));
    }
  }

  lemma FailureBringsNothing(turn: Turn)
    requires turn.poll == SelectFailed || turn.poll == ReceiveFailed
    ensures Received(turn) == None
  {
  }

  lemma FirstWantedUnique(turns: nat -> Turn, id: word16, start: int, timeout: int, i: nat, j: nat)
    requires FirstWanted(turns, id, start, timeout, i) && FirstWanted(turns, id, start, timeout, j)
    ensures i == j
  {
    hide Wanted;
  }

  /** When the wait succeeds, whatever came before: silence, interruptions, unwanted or unparsable
      datagrams do not end it. */
  lemma WaitSucceeds(turns: nat -> Turn, id: word16, start: int, timeout: int, hasCallback: bool,
                     r: int, calls: seq<Packet>, at: nat, i: nat)
    requires Waited(turns, id, start, timeout, hasCallback, r, calls, at)
    requires forall j: nat | j <= i :: turns(j).now - start < timeout
    requires forall j: nat | j < i :: match turns(j).poll
                                      case SelectInterrupted => true
                                      case Quiet => true
                                      case ReceiveInterrupted => true
                                      case Datagram(_) => !Wanted(turns(j), id)
                                      case _ => false
    requires Wanted(turns(i), id)
    ensures r == 0 && at == i && calls == if hasCallback then [Received(turns(i)).value] else []
  {
    hide Wanted;
    forall j: nat | j < i
      ensures !Wanted(turns(j), id)
    {
      OnlyDatagramsWanted(turns(j), id);
    }
    assert Polls(turns, id, start, timeout, i);
    FirstWantedIs(turns, id, start, timeout, i);
    if r == 0 {
      FirstWantedUnique(turns, id, start, timeout, at, i);
    }
    WantedIs(turns(i), id);
  }

  /** When it fails: a failure of select or recvfrom, or the deadline, before any wanted response. */
  lemma WaitFails(turns: nat -> Turn, id: word16, start: int, timeout: int, hasCallback: bool,
                  r: int, calls: seq<Packet>, at: nat, i: nat)
    requires Waited(turns, id, start, timeout, hasCallback, r, calls, at)
    requires forall j: nat | j < i :: !Wanted(turns(j), id)
    requires turns(i).poll == SelectFailed || turns(i).poll == ReceiveFailed || turns(i).now - start >= timeout
    ensures r == -1 && calls == []
  {
    hide Wanted, FirstWanted;
    NeverWanted(turns, id, start, timeout, i);
  }

  lemma OnlyDatagramsWanted(turn: Turn, id: word16)
    ensures !turn.poll.Datagram? ==> !Wanted(turn, id)
  {
  }

  // ---- What the callback keeps ----

  /** handle_dns_response: the four address bytes of an A record; anything else is dropped. */
  function StoredAddress(packet: Packet): Option<seq<byte>>
    requires packet.answer.Some? ==> packet.answer.value.rtype == TYPE_A ==> 4 <= |packet.answer.value.rdata|
  {
    match packet.answer
    case Some(answer) => if answer.rtype == TYPE_A then Some(answer.rdata[..4]) else None
    case None => None
  }

  lemma StoredExactly(packet: Packet, address: seq<byte>)
    requires packet.answer.Some? ==> packet.answer.value.rtype == 1 ==> 4 <= |packet.answer.value.rdata|
    ensures StoredAddress(packet) == Some(address) <==>
              packet.answer.Some? && packet.answer.value.rtype == 1
              && address == packet.answer.value.rdata[..4]
  {
  }

  /** The repository's two ends understand each other: a query as dns_query_domain creates and
      sends it, answered as handle_dns_query answers, is exactly what dns_wait_response is waiting
      for, and the callback stores the responder's address. */
  lemma ExchangeDelivers(id: word16, name: seq<byte>, address: seq<byte>, now: int)
    requires Portable(name) && |address| == 4
    ensures var query := CreateQuery(id, name);
            var reply := ResponseBytes(QueryBytes(query.header, query.question), address);
            var turn := Turn(now, Datagram(reply));
            && SafeTurn(turn) && Wanted(turn, id)
            && Received(turn).value.question == query.question
            && Received(turn).value.answer == Some(Answer(name, TYPE_A, CLASS_IN, 60, 4, address))
            && StoredAddress(Received(turn).value) == Some(address)
  {
    hide Parsable, PacketOf, QuestionBytes, HeaderBytes, ResponseBytes, QueryBytes, Zeros;
    var query := CreateQuery(id, name);
    var bytes := QueryBytes(query.header, query.question);
    QueryLayout(query.header, query.question);
    ReplyLength(bytes, address);
    var reply := ResponseBytes(bytes, address);
    ResponseRoundTrip(bytes, query.question, address, Zeros(UDP_SIZE - |reply|));
    assert address[..4] == address;
  }

  lemma ReplyLength(query: seq<byte>, address: seq<byte>)
    requires HEADER_SIZE <= |query| && |address| == 4
    ensures |ResponseBytes(query, address)| == |query| + 16
  {
  }

  lemma QueryLayout(header: Header, q: Question)
    ensures var bytes := QueryBytes(header, q);
            && |bytes| == |q.qname| + 18
            && Word16At(bytes, 0) == header.id && bytes[HEADER_SIZE..] == QuestionBytes(q)
  {
    WireLength(q.qname);
    HeaderRoundTrip(header, QuestionBytes(q));
    assert HeaderOf(QueryBytes(header, q)).id == header.id;
  }
}
