/**
 One exchange with an upstream server: the clean iterative query that is sent, and what is made
 of the datagram that comes back.  The network itself is an arbitrary choice of what arrives.
 */
module Upstream {
  import opened Wire
  import opened Buffer
  import opened Headers
  import opened Records
  import opened Packets
  import opened Grammar

  /** Milliseconds between two readings of the steady clock, whose nanoseconds are a signed 64-bit word. */
  type Millis = x: int | 0 <= x <= 9_223_372_036_854

  const MAX_MILLIS: Millis := 9_223_372_036_854

  /** What the sockets report, with the bytes received and the time the exchange took. */
  datatype Exchange = SocketFailed | SendFailed | NoReply | ReceiveFailed | WrongSender | Reply(bytes: Bytes, rtt: Millis)

  /** One exchange, and the server it was with. */
  datatype Contact = Contact(address: Address, exchange: Exchange)

  /** The query sent upstream: the client's question and ID, RD clear, and an OPT record of its own. */
  function Request(query: Packet): Packet {
    EMPTY_PACKET.(question := query.question, header := BLANK.(id := query.header.id).SetRecursionDesired(false))
      .AddOpt(1232, 0, 0, false)
  }

  /** The response an upstream server gave to the query, or the empty packet. */
  ghost predicate UpstreamResponse(response: Packet, query: Packet) {
    PacketWellFormed(response) && response.header.IsResponse() && response.header.id == query.header.id
  }

  /** What a lookup makes of an exchange: the response, if it is one to this query. */
  function ResponseTo(query: Packet, e: Exchange): Option<Packet> {
    if !e.Reply? || !CanPrint(Request(query)) then None
    else match ReadPacket(e.bytes, 0)
      case Fail(_, _) => None
      case Ok(p, _) => if p.header.IsResponse() && p.header.id == query.header.id then Some(p) else None
  }

  predicate CanPrint(p: Packet) {
    EncodePacket(p).error.None? && |EncodePacket(p).bytes| <= MAX_BUFFER_SIZE
  }

  /** The exchange brought packet `p` in answer to the query: the request could be sent, and the
      bytes received are a response with its ID. */
  ghost predicate Brings(query: Packet, e: Exchange, p: Packet) {
    && CanPrint(Request(query)) && e.Reply?
    && (exists q: nat :: PacketAt(e.bytes, 0, p, q)) && p.header.IsResponse() && p.header.id == query.header.id
  }

  lemma ResponseToIff(query: Packet, e: Exchange, p: Packet)
    ensures ResponseTo(query, e) == Some(p) <==> Brings(query, e, p)
  {
    hide ReadPacket, PacketAt, CanPrint;
    if e.Reply? && CanPrint(Request(query)) {
      if ReadPacket(e.bytes, 0).Ok? {
        PacketIff(e.bytes, 0, p, ReadPacket(e.bytes, 0).next);
      }
      if Brings(query, e, p) {
        var q: nat :| PacketAt(e.bytes, 0, p, q);
        PacketIff(e.bytes, 0, p, q);
      }
    }
  }

  /** What is sent upstream asks the client's question under the client's ID, with QR and RD clear,
      and has no records but an OPT record that offers 1232 bytes. */
  lemma RequestAsks(query: Packet) returns (sent: Packet)
    requires QuestionReadable(query.question) && CanPrint(Request(query))
    ensures var w := EncodePacket(Request(query)).bytes; PacketAt(w, 0, sent, |w|)
    ensures SameQuestion(query.question, sent.question)
    ensures sent.header.id == query.header.id && !sent.header.IsResponse() && !sent.header.RecursionDesired()
    ensures sent.answers == sent.authorities == [] && |sent.additionals| == 1
    ensures sent.additionals[0].data == OPT(1232, 0, 0, false, [])
  {
    hide EncodePacket, PacketAt;
    var r := Request(query);
    var w := EncodePacket(r).bytes;
    OptRecordWellFormed(1232, 0, 0, false);
    assert w[0..|w|] == w;
    PrintedPacketStands(w, 0, r);
    sent := CanonPacket(r);
  }

  /** The same, with the empty packet for none. */
  function ReplyOf(query: Packet, e: Exchange): Packet {
    var r := ResponseTo(query, e);
    if r.Some? then r.value else EMPTY_PACKET
  }

  lemma ReplyIsUpstream(query: Packet, e: Exchange)
    ensures ReplyOf(query, e) == EMPTY_PACKET || UpstreamResponse(ReplyOf(query, e), query)
  {
    if ResponseTo(query, e).Some? {
      ResponseToIsWellFormed(query, e);
    }
  }

  lemma ResponseToIsWellFormed(query: Packet, e: Exchange)
    requires ResponseTo(query, e).Some?
    ensures UpstreamResponse(ResponseTo(query, e).value, query)
  {
    ParsedPacketIsWellFormed(e.bytes, 0, ReadPacket(e.bytes, 0).value, ReadPacket(e.bytes, 0).next);
  }

  /** The arbitrary network: at most 1232 bytes fit the receiving array. */
  method Choose() returns (e: Exchange)
    ensures e.Reply? ==> |e.bytes| <= MAX_BUFFER_SIZE
  {
    e := *;
    if e.Reply? && |e.bytes| > MAX_BUFFER_SIZE {
      e := Reply(e.bytes[..MAX_BUFFER_SIZE], e.rtt);
    }
  }

  /** A buffer that a datagram was received into. */
  method Receive(bytes: Bytes, capacity: nat) returns (buffer: BytePacketBuffer)
    requires |bytes| <= MAX_BUFFER_SIZE
    ensures fresh(buffer) && fresh(buffer.buff) && buffer.Valid() && buffer.pos == 0 && buffer.Contents() == bytes
  {
    buffer := new BytePacketBuffer(capacity);
    forall i | 0 <= i < |bytes| {
      buffer.buff[i] := bytes[i];
    }
    var r := buffer.SetLength(|bytes|);
    assert r.Pass?;
    assert buffer.buff[..|bytes|] == bytes;
  }

  method Decode(bytes: Bytes, capacity: nat) returns (r: Result<Packet>)
    requires |bytes| <= MAX_BUFFER_SIZE
    ensures r == ReadPacket(bytes, 0).ToResult()
    ensures r.Success? ==> PacketWellFormed(r.value) && CountsMatch(r.value)
  {
    var buffer := Receive(bytes, capacity);
    r := Packets.Read(buffer);
    if r.Success? {
      ParsedPacketIsWellFormed(bytes, 0, r.value, ReadPacket(bytes, 0).next);
    }
  }

  /** Prints a packet into a fresh buffer; the bytes are those that would be sent. */
  method Encode(packet: Packet, capacity: nat) returns (r: Result<Bytes>)
    ensures r.Success? <==> EncodePacket(packet).error.None? && |EncodePacket(packet).bytes| <= Min(capacity, MAX_BUFFER_SIZE)
    ensures r.Success? ==> r.value == EncodePacket(packet).bytes
  {
    var buffer := new BytePacketBuffer(capacity);
    ghost var s := buffer.Now();
    var outcome, _ := Packets.Write(packet, buffer);
    if outcome.Raise? { return Failure(outcome.error); }
    FreshPrint(s, EncodePacket(packet));
    r := Success(buffer.buff[..buffer.len]);
  }
}
