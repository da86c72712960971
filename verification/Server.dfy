/**
 The response pipeline of the server: what becomes of one datagram a client sent.

 The sockets and the endless loop around them are not modelled; `Serve` is one turn of the loop,
 from the bytes received to the bytes that would be sent, if any.
 */
module Server {
  import opened Wire
  import opened Buffer
  import opened Headers
  import opened Records
  import opened Packets
  import opened Upstream
  import opened Cache
  import opened Frames
  import opened Resolver

  function ServerFailure(request: Packet): Packet {
    var header := BLANK.(id := request.header.id).SetResponse(true).SetAuthoritative(false)
      .SetRecursionDesired(request.header.RecursionDesired()).SetRecursionAvailable(true).SetResultCode(SERVFAIL);
    EMPTY_PACKET.(header := header, question := request.question)
  }

  function StripOpt(rs: seq<Record>): seq<Record> {
    if rs == [] then []
    else
      var last := rs[|rs| - 1];
      StripOpt(rs[..|rs| - 1]) + if last.rtype == TYPE_OPT then [] else [last]
  }

  /** The number of OPT records in a section. */
  function OptCount(rs: seq<Record>): nat {
    if rs == [] then 0 else OptCount(rs[..|rs| - 1]) + if rs[|rs| - 1].rtype == TYPE_OPT then 1 else 0
  }

  /** What the client said it can take: 512 bytes, or the clamped EDNS size. */
  function Capacity(request: Packet): nat {
    var edns := request.GetEdnsInfo();
    if edns.Some? then edns.value.maxPayloadSize else DEFAULT_BUFFER_SIZE
  }

  /** The packet that is printed for the client, made from what the lookup returned. */
  function Prepared(found: Packet, request: Packet): Packet {
    var response := if !found.header.IsResponse() || found.question.None? then ServerFailure(request) else found;
    var edns := request.GetEdnsInfo();
    var opt := if edns.Some? then [OptRecord(edns.value.maxPayloadSize, 0, 0, edns.value.dnssecOk)] else [];
    response.(header := Answering(response.header, request.header), additionals := StripOpt(response.additionals) + opt)
  }

  /** A request the server answers at all. */
  predicate Answerable(request: Packet) {
    !request.header.IsResponse() && request.question.Some?
  }

  /** The datagram sent for a request, unless printing it throws. */
  function Datagram(found: Packet, request: Packet): Option<Bytes> {
    var e := EncodePacket(Prepared(found, request));
    if e.error.None? && |e.bytes| <= Capacity(request) then Some(e.bytes) else None
  }

  // ----- The lemmas -----

  lemma OptCountStep(rs: seq<Record>, r: Record)
    ensures OptCount(rs + [r]) == OptCount(rs) + if r.rtype == TYPE_OPT then 1 else 0
  {
    assert (rs + [r])[..|rs|] == rs;
  }

  /** Stripping removes the OPT records and nothing else. */
  lemma {:induction false} StrippedHasNoOpt(rs: seq<Record>)
    ensures OptCount(StripOpt(rs)) == 0 && |StripOpt(rs)| + OptCount(rs) == |rs|
    ensures forall r :: r in StripOpt(rs) <==> r in rs && r.rtype != TYPE_OPT
    decreases |rs|
  {
    hide OptCount;
    if rs == [] {
      assert OptCount([]) == 0 by { NothingCounted(); }
    } else {
      var front, last := rs[..|rs| - 1], rs[|rs| - 1];
      StrippedHasNoOpt(front);
      assert rs == front + [last];
      OptCountStep(front, last);
      OptCountStep(StripOpt(front), last);
      assert StripOpt(front) + [] == StripOpt(front);
    }
  }

  lemma NothingCounted()
    ensures OptCount([]) == 0
  {
  }

  lemma {:induction false} CanonKeepsOptCount(rs: seq<Record>)
    ensures OptCount(CanonRecords(rs)) == OptCount(rs)
    decreases |rs|
  {
    hide CanonRecord;
    if rs != [] {
      CanonKeepsOptCount(rs[..|rs| - 1]);
      assert CanonRecords(rs)[..|rs| - 1] == CanonRecords(rs[..|rs| - 1]);
      assert CanonRecord(rs[|rs| - 1]).rtype == rs[|rs| - 1].rtype by { CanonKeepsType(rs[|rs| - 1]); }
    } else {
      assert CanonRecords(rs) == [];
    }
  }

  lemma CanonKeepsType(r: Record)
    ensures CanonRecord(r).rtype == r.rtype
  {
  }

  lemma ServerFailureAnswers(request: Packet)
    ensures AnswersFor(ServerFailure(request).header, request.header)
    ensures ServerFailure(request).header.GetResultCode() == SERVFAIL
  {
  }

  /** Whatever the lookup returned, the packet printed answers the request and carries one OPT
      record of the server's own, or none. */
  lemma PreparedAnswers(found: Packet, request: Packet)
    requires Answerable(request)
    ensures var p := Prepared(found, request);
      && AnswersFor(p.header, request.header) && p.question.Some?
      && OptCount(p.additionals) == (if request.GetEdnsInfo().Some? then 1 else 0)
  {
    var response := if !found.header.IsResponse() || found.question.None? then ServerFailure(request) else found;
    AnsweringAnswers(response.header, request.header);
    StrippedHasNoOpt(response.additionals);
    var stripped := StripOpt(response.additionals);
    var edns := request.GetEdnsInfo();
    if edns.Some? {
      var opt := OptRecord(edns.value.maxPayloadSize, 0, 0, edns.value.dnssecOk);
      assert (stripped + [opt])[..|stripped|] == stripped;
    } else {
      assert stripped + [] == stripped;
    }
  }

  lemma PreparedIsWellFormed(found: Packet, request: Packet)
    requires PacketWellFormed(request) && Sound(found, request)
    ensures PacketWellFormed(Prepared(found, request))
  {
    hide WellFormed;
    var response := if !found.header.IsResponse() || found.question.None? then ServerFailure(request) else found;
    StrippedHasNoOpt(response.additionals);
    var p := Prepared(found, request);
    var edns := request.GetEdnsInfo();
    if edns.Some? {
      OptRecordWellFormed(edns.value.maxPayloadSize, 0, 0, edns.value.dnssecOk);
    }
    forall i | 0 <= i < |p.additionals|
      ensures WellFormed(p.additionals[i])
    {
      var stripped := StripOpt(response.additionals);
      if i < |stripped| {
        assert stripped[i] in stripped;
        assert stripped[i] in response.additionals;
      }
    }
  }

  /** The size that counts is that of the first OPT record, clamped; none at all means 512. */
  lemma CapacityBounds(request: Packet)
    ensures 512 <= Capacity(request) <= 1232
    ensures forall i :: FirstOpt(request.additionals, i) ==>
      Capacity(request) == Min(Max(512, request.additionals[i].data.udpPayloadSize), 1232)
    ensures (forall i :: 0 <= i < |request.additionals| ==> !request.additionals[i].data.OPT?) ==> Capacity(request) == 512
  {
    EdnsComesFromFirstOpt(request.additionals);
  }

  /** The datagram fits what the client itself advertised, in the first of its OPT records: that
      size, taken as 512 if it is smaller, and never more than 1232; or 512 if it sent none. */
  ghost predicate FitsClient(datagram: Bytes, request: Packet) {
    && |datagram| <= 1232
    && (forall i :: FirstOpt(request.additionals, i) ==>
         |datagram| <= Max(512, request.additionals[i].data.udpPayloadSize))
    && ((forall i :: 0 <= i < |request.additionals| ==> !request.additionals[i].data.OPT?) ==> |datagram| <= 512)
  }

  /** The one OPT record of a reply, its last additional record, has the size the server agrees
      to, the DO bit of the client, version 0, no extended result code and no options; there is
      none if the client sent none. */
  ghost predicate OptEchoes(p: Packet, request: Packet) {
    && (forall i :: FirstOpt(request.additionals, i) ==>
         var opt := request.additionals[i].data;
         && OptCount(p.additionals) == 1
         && p.additionals[|p.additionals| - 1].data
            == OPT(Min(Max(512, opt.udpPayloadSize), 1232), 0, 0, opt.dnssecOk, []))
    && ((forall i :: 0 <= i < |request.additionals| ==> !request.additionals[i].data.OPT?) ==> OptCount(p.additionals) == 0)
  }

  /** The records of `rs` that are not OPT, all of them and in order. */
  ghost predicate AreTheOthers(rs: seq<Record>, kept: seq<Record>) {
    && |kept| == |rs| - OptCount(rs)
    && forall i :: 0 <= i < |rs| && rs[i].rtype != 41 ==> IsKept(rs, i, kept)
  }

  /** Record `i` comes after as many records of `kept` as there are records before it that are not OPT. */
  ghost predicate IsKept(rs: seq<Record>, i: nat, kept: seq<Record>)
    requires i < |rs|
  {
    0 <= i - OptCount(rs[..i]) < |kept| && kept[i - OptCount(rs[..i])] == rs[i]
  }

  ghost predicate HasOpt(request: Packet) {
    exists i :: FirstOpt(request.additionals, i)
  }

  /** The additional records of a reply before its own OPT record. */
  ghost function BeforeOpt(p: Packet, request: Packet): seq<Record> {
    if HasOpt(request) && p.additionals != [] then p.additionals[..|p.additionals| - 1] else p.additionals
  }

  /** The reply carries what the lookup found: its question, its code, its answers and authorities,
      and its additional records but OPT; if it found no response with a question, the reply is
      SERVFAIL for the client's own question, and empty. */
  ghost predicate Carries(p: Packet, found: Packet, request: Packet) {
    if found.header.IsResponse() && found.question.Some? then
      && p.header.GetResultCode() == found.header.GetResultCode() && p.question == found.question
      && p.answers == found.answers && p.authorities == found.authorities
      && AreTheOthers(found.additionals, BeforeOpt(p, request))
    else
      && p.header.GetResultCode() == SERVFAIL && p.question == request.question
      && p.answers == p.authorities == BeforeOpt(p, request) == []
  }

  /** The same of a packet that was printed and parsed: names and RDLENGTHs as printing leaves them. */
  ghost predicate CarriesPrinted(p: Packet, found: Packet, request: Packet) {
    if found.header.IsResponse() && found.question.Some? then
      && p.header.GetResultCode() == found.header.GetResultCode() && p.question == CanonQuestion(found.question)
      && p.answers == CanonRecords(found.answers) && p.authorities == CanonRecords(found.authorities)
      && AreTheOthers(CanonRecords(found.additionals), BeforeOpt(p, request))
    else
      && p.header.GetResultCode() == SERVFAIL && p.question == CanonQuestion(request.question)
      && p.answers == p.authorities == BeforeOpt(p, request) == []
  }

  /** A reply to the request, given what the lookup found. */
  ghost predicate IsReply(p: Packet, found: Packet, request: Packet) {
    AnswersFor(p.header, request.header) && Carries(p, found, request) && OptEchoes(p, request)
  }

  /** The most bytes the client takes: those its first OPT record offers, within 512..1232, or 512. */
  ghost predicate IsLimit(n: nat, request: Packet) {
    if HasOpt(request) then
      exists i :: FirstOpt(request.additionals, i) && n == Min(Max(512, request.additionals[i].data.udpPayloadSize), 1232)
    else n == 512
  }

  /** A reply is sent exactly if it can be printed within the client's limit. */
  ghost predicate SentIfItFits(sent: Option<Bytes>, found: Packet, request: Packet) {
    exists p, n :: IsReply(p, found, request) && IsLimit(n, request)
      && (sent.Some? <==> EncodePacket(p).error.None? && |EncodePacket(p).bytes| <= n)
  }

  /** What a client can rely on in a datagram it is sent. */
  ghost predicate GoodDatagram(datagram: Bytes, found: Packet, request: Packet) {
    && FitsClient(datagram, request)
    && ReadPacket(datagram, 0).Ok? && ReadPacket(datagram, 0).next == |datagram|
    && var p := ReadPacket(datagram, 0).value;
       && AnswersFor(p.header, request.header) && p.question.Some? && CountsMatch(p)
       && CarriesPrinted(p, found, request) && OptEchoes(p, request)
  }

  lemma {:induction false} StripOptKeepsOthers(rs: seq<Record>)
    ensures AreTheOthers(rs, StripOpt(rs))
    decreases |rs|
  {
    hide OptCount, StripOpt;
    StrippedHasNoOpt(rs);
    if rs != [] {
      var front, last := rs[..|rs| - 1], rs[|rs| - 1];
      StripOptKeepsOthers(front);
      StrippedHasNoOpt(front);
      StripOptStep(rs);
      forall i | 0 <= i < |rs| && rs[i].rtype != 41
        ensures IsKept(rs, i, StripOpt(rs))
      {
        if i < |front| {
          assert front[..i] == rs[..i] && front[i] == rs[i];
          assert IsKept(front, i, StripOpt(front));
        }
      }
    }
  }

  lemma StripOptStep(rs: seq<Record>)
    requires rs != []
    ensures StripOpt(rs) == StripOpt(rs[..|rs| - 1]) + if rs[|rs| - 1].rtype == 41 then [] else [rs[|rs| - 1]]
  {
  }

  lemma CanonKeepsOthers(rs: seq<Record>, kept: seq<Record>)
    requires AreTheOthers(rs, kept)
    ensures AreTheOthers(CanonRecords(rs), CanonRecords(kept))
  {
    hide OptCount, CanonRecord;
    CanonKeepsOptCount(rs);
    forall i | 0 <= i < |rs| && CanonRecords(rs)[i].rtype != 41
      ensures IsKept(CanonRecords(rs), i, CanonRecords(kept))
    {
      CanonKeepsType(rs[i]);
      assert IsKept(rs, i, kept);
      CanonKeepsOptCount(rs[..i]);
      assert CanonRecords(rs)[..i] == CanonRecords(rs[..i]);
    }
  }

  /** What is printed for the client is a reply to its request, with what the lookup found. */
  lemma PreparedIsReply(found: Packet, request: Packet)
    requires Answerable(request)
    ensures IsReply(Prepared(found, request), found, request)
  {
    hide AnswersFor, OptCount, StripOpt, Answering, AreTheOthers;
    var response := if !found.header.IsResponse() || found.question.None? then ServerFailure(request) else found;
    var p := Prepared(found, request);
    PreparedAnswers(found, request);
    AnsweringAnswers(response.header, request.header);
    ServerFailureAnswers(request);
    StripOptKeepsOthers(response.additionals);
    StrippedHasNoOpt(response.additionals);
    EdnsComesFromFirstOpt(request.additionals);
    assert BeforeOpt(p, request) == StripOpt(response.additionals);
  }

  lemma LimitIsCapacity(request: Packet)
    ensures IsLimit(Capacity(request), request)
  {
    EdnsComesFromFirstOpt(request.additionals);
    CapacityBounds(request);
  }

  lemma ReplyIsSentIfItFits(found: Packet, request: Packet)
    requires Answerable(request)
    ensures SentIfItFits(Datagram(found, request), found, request)
  {
    hide IsReply, Prepared, EncodePacket, IsLimit, Capacity;
    PreparedIsReply(found, request);
    LimitIsCapacity(request);
  }

  lemma PrintedReplyCarries(p: Packet, found: Packet, request: Packet)
    requires Carries(p, found, request) && (HasOpt(request) ==> p.additionals != [])
    ensures CarriesPrinted(CanonPacket(p), found, request)
  {
    hide AreTheOthers, CanonRecord, HasOpt;
    var before := BeforeOpt(p, request);
    assert BeforeOpt(CanonPacket(p), request) == CanonRecords(before);
    if found.header.IsResponse() && found.question.Some? {
      CanonKeepsOthers(found.additionals, before);
    }
  }

  /** End to end: every datagram the server sends fits the client and parses back, as a response
      (QR and RA set, AA clear) with the request's ID and RD bit, a question, honest counts, and
      exactly one OPT record if the client sent one, echoing its DO bit, and none otherwise. */
  lemma DatagramIsGood(found: Packet, request: Packet)
    requires PacketWellFormed(request) && Answerable(request) && Sound(found, request)
    requires Datagram(found, request).Some?
    ensures GoodDatagram(Datagram(found, request).value, found, request)
    ensures ReadPacket(Datagram(found, request).value, 0).value == CanonPacket(Prepared(found, request))
  {
    hide ReadPacket, EncodePacket, Prepared, PacketWellFormed, AnswersFor, CountsMatch, CanonRecords, OptEchoes, OptCount,
      Carries, CarriesPrinted;
    var p := Prepared(found, request);
    var w := EncodePacket(p).bytes;
    CapacityBounds(request);
    PreparedIsWellFormed(found, request);
    PreparedAnswers(found, request);
    assert w[0..|w|] == w;
    PrintedPacketReadsBack(w, 0, p);
    PrintedCounts(p);
    CanonOptEchoes(found, request);
    CanonCounts(p);
    PreparedIsReply(found, request);
    if HasOpt(request) {
      OptIsThere(p, request);
    }
    PrintedReplyCarries(p, found, request);
  }

  lemma OptIsThere(p: Packet, request: Packet)
    requires OptEchoes(p, request) && HasOpt(request)
    ensures p.additionals != []
  {
  }

  lemma CanonOptEchoes(found: Packet, request: Packet)
    requires OptCount(Prepared(found, request).additionals) == (if request.GetEdnsInfo().Some? then 1 else 0)
    ensures OptEchoes(CanonPacket(Prepared(found, request)), request)
  {
    var p := Prepared(found, request);
    EdnsComesFromFirstOpt(request.additionals);
    CanonKeepsOptCount(p.additionals);
    var edns := request.GetEdnsInfo();
    if edns.Some? {
      var opt := OptRecord(edns.value.maxPayloadSize, 0, 0, edns.value.dnssecOk);
      assert p.additionals[|p.additionals| - 1] == opt;
      assert CanonRecord(opt).data == opt.data;
    }
  }

  lemma CanonCounts(p: Packet)
    requires CountsMatch(p.Synced())
    ensures CountsMatch(CanonPacket(p))
    ensures forall h :: AnswersFor(p.header, h) ==> AnswersFor(CanonPacket(p).header, h)
  {
  }

  // ----- The server -----

  class DnsServer {
    const resolver: DnsResolver

    constructor (addresses: seq<Address>, clock: SteadyClock)
      ensures fresh(resolver) && fresh(resolver.cache) && fresh(resolver.roots) && resolver.cache.clock == clock
      ensures resolver.Valid()
    {
      resolver := new DnsResolver(addresses, clock);
    }

    /** Any OPT record of the upstream answer is dropped from the additional section. */
    method RemoveOpt(rs: seq<Record>) returns (kept: seq<Record>)
      ensures kept == StripOpt(rs)
    {
      kept := [];
      for i := 0 to |rs|
        invariant kept == StripOpt(rs[..i])
      {
        assert rs[..i + 1][..i] == rs[..i];
        if rs[i].rtype != TYPE_OPT {
          kept := kept + [rs[i]];
        }
      }
      assert rs[..|rs|] == rs;
    }

    /** One turn of the server loop: nothing is sent for a datagram that is malformed, a response,
        or without question, or when printing the answer throws. */
    method Serve(received: Bytes, fuel: nat) returns (sent: Option<Bytes>, ghost frame: Option<Frame>)
      requires |received| <= MAX_BUFFER_SIZE && resolver.Valid()
      modifies resolver.cache, resolver.cache.clock, resolver.roots
      ensures resolver.Valid()
      ensures var parsed := ReadPacket(received, 0);
        if parsed.Fail? || parsed.value.header.IsResponse() || parsed.value.question.None? then
          sent.None? && frame.None? && resolver.cache.Now() == old(resolver.cache.Now())
        else
          && frame.Some? && ValidFrame(frame.value) && frame.value.query == parsed.value
          && frame.value.before == old(resolver.cache.Now()) && frame.value.after == resolver.cache.Now()
          && sent == Datagram(frame.value.response, parsed.value)
          && SentIfItFits(sent, frame.value.response, parsed.value)
          && (sent.Some? ==> GoodDatagram(sent.value, frame.value.response, parsed.value))
    {
      hide ReadPacket, ValidFrame, GoodDatagram, SentIfItFits, Sound, PacketWellFormed, EncodePacket, Answering;
      var decoded := Decode(received, DEFAULT_BUFFER_SIZE);
      if decoded.Failure? { return None, None; }
      var request := decoded.value;
      if request.header.IsResponse() || request.question.None? { return None, None; }
      var clientEdns := request.GetEdnsInfo();
      var response, f := resolver.Lookup(request, fuel);
      ghost var found := response;
      frame := Some(f);
      if !response.header.IsResponse() || response.question.None? {
        response := ServerFailure(request);
      }
      response := response.(header := Answering(response.header, request.header));
      var additionals := RemoveOpt(response.additionals);
      response := response.(additionals := additionals);
      if clientEdns.Some? {
        response := response.AddOpt(clientEdns.value.maxPayloadSize, 0, 0, clientEdns.value.dnssecOk);
      }
      assert response == Prepared(found, request);
      CapacityBounds(request);
      ReplyIsSentIfItFits(found, request);
      var capacity: nat := if clientEdns.Some? then clientEdns.value.maxPayloadSize else DEFAULT_BUFFER_SIZE;
      var encoded := Encode(response, capacity);
      if encoded.Failure? {
        return None, frame;
      }
      DatagramIsGood(found, request);
      sent := Some(encoded.value);
    }
  }
}
