/**
 The packet header (section 4.1.1 of RFC 1035): six words on the wire, with the flag word kept
 as a bit vector, as the original's setters and getters treat it.
 */
module Headers {
  import opened Wire
  import opened Buffer

  datatype ResultCode = NOERROR | FORMERR | SERVFAIL | NXDOMAIN | NOTIMP | REFUSED | UNKNOWN

  function ResultCodeFromNum(num: bv16): ResultCode {
    if num == 0 then NOERROR
    else if num == 1 then FORMERR
    else if num == 2 then SERVFAIL
    else if num == 3 then NXDOMAIN
    else if num == 4 then NOTIMP
    else if num == 5 then REFUSED
    else UNKNOWN
  }

  function NumFromResultCode(code: ResultCode): bv16 {
    match code
    case NOERROR => 0
    case FORMERR => 1
    case SERVFAIL => 2
    case NXDOMAIN => 3
    case NOTIMP => 4
    case REFUSED => 5
    case UNKNOWN => 6
  }

  const RESPONSE: bv16 := 0x8000
  const AUTHORITATIVE: bv16 := 0x0400
  const RECURSION_DESIRED: bv16 := 0x0100
  const RECURSION_AVAILABLE: bv16 := 0x0080

  function SetFlag(flags: bv16, mask: bv16, value: bool): bv16 {
    if value then flags | mask else flags & !mask
  }

  datatype Header = Header(id: u16, flags: bv16, qdcount: u16, ancount: u16, nscount: u16, arcount: u16) {
    predicate IsResponse() { flags & RESPONSE != 0 }

    predicate IsAuthoritative() { flags & AUTHORITATIVE != 0 }

    predicate RecursionDesired() { flags & RECURSION_DESIRED != 0 }

    predicate RecursionAvailable() { flags & RECURSION_AVAILABLE != 0 }

    function GetResultCode(): ResultCode { ResultCodeFromNum(flags & 0x000F) }

    function SetResponse(value: bool): Header { this.(flags := SetFlag(flags, RESPONSE, value)) }

    function SetAuthoritative(value: bool): Header { this.(flags := SetFlag(flags, AUTHORITATIVE, value)) }

    function SetRecursionDesired(value: bool): Header { this.(flags := SetFlag(flags, RECURSION_DESIRED, value)) }

    function SetRecursionAvailable(value: bool): Header {
      this.(flags := SetFlag(flags, RECURSION_AVAILABLE, value))
    }

    function SetResultCode(code: ResultCode): Header {
      this.(flags := (flags & 0xFFF0) | (NumFromResultCode(code) & 0x000F))
    }

    function SetCounts(qd: u16, an: u16, ns: u16, ar: u16): Header {
      this.(qdcount := qd, ancount := an, nscount := ns, arcount := ar)
    }
  }

  const BLANK: Header := Header(0, 0, 0, 0, 0, 0)

  /** The header of a recursive answer: the query's ID and RD bit, QR and RA set, AA clear. */
  function Answering(h: Header, query: Header): Header {
    h.(id := query.id).SetResponse(true).SetAuthoritative(false)
      .SetRecursionAvailable(true).SetRecursionDesired(query.RecursionDesired())
  }

  ghost predicate AnswersFor(h: Header, query: Header) {
    && h.id == query.id
    && h.IsResponse() && !h.IsAuthoritative() && h.RecursionAvailable()
    && (h.RecursionDesired() <==> query.RecursionDesired())
  }

  /** The five setters do not undo one another, and leave the result code and counts alone. */
  lemma AnsweringAnswers(h: Header, query: Header)
    ensures var a := Answering(h, query);
      && AnswersFor(a, query)
      && a.GetResultCode() == h.GetResultCode()
      && a == h.(id := query.id, flags := a.flags)
  {
  }

  lemma SetResultCodeSticks(h: Header, code: ResultCode)
    ensures h.SetResultCode(code).GetResultCode() == code
    ensures h.SetResultCode(code).IsResponse() == h.IsResponse()
    ensures h.SetResultCode(code).IsAuthoritative() == h.IsAuthoritative()
    ensures h.SetResultCode(code).RecursionDesired() == h.RecursionDesired()
    ensures h.SetResultCode(code).RecursionAvailable() == h.RecursionAvailable()
  {
  }

  /** Where the flags are in the word (section 4.1.1 of RFC 1035): QR is bit 15, AA bit 10, RD bit 8,
      RA bit 7, and the result code is the low four bits. */
  lemma FlagsStandWhereTheyShould(h: Header)
    ensures h.IsResponse() <==> (h.flags >> 15) % 2 == 1
    ensures h.IsAuthoritative() <==> (h.flags >> 10) % 2 == 1
    ensures h.RecursionDesired() <==> (h.flags >> 8) % 2 == 1
    ensures h.RecursionAvailable() <==> (h.flags >> 7) % 2 == 1
    ensures var code := h.GetResultCode();
      && (code == NOERROR <==> h.flags % 16 == 0) && (code == FORMERR <==> h.flags % 16 == 1)
      && (code == SERVFAIL <==> h.flags % 16 == 2) && (code == NXDOMAIN <==> h.flags % 16 == 3)
      && (code == NOTIMP <==> h.flags % 16 == 4) && (code == REFUSED <==> h.flags % 16 == 5)
  {
  }

  /** Answering touches QR, AA, RD and RA, setting a result code the low four bits, and no other. */
  lemma OtherFlagsStay(h: Header, query: Header, code: ResultCode)
    ensures Answering(h, query).flags & 0x7A7F == h.flags & 0x7A7F
    ensures h.SetResultCode(code).flags & 0xFFF0 == h.flags & 0xFFF0
  {
  }

  // ----- The wire form -----

  function BytesOfFlags(flags: bv16): Bytes {
    BytesOfU16(flags as int)
  }

  function ReadHeader(b: Bytes, p: nat): Parsed<Header> {
    var (id, p1) :- ReadU16(b, p);
    var (flags, p2) :- ReadU16(b, p1);
    var (qd, p3) :- ReadU16(b, p2);
    var (an, p4) :- ReadU16(b, p3);
    var (ns, p5) :- ReadU16(b, p4);
    var (ar, p6) :- ReadU16(b, p5);
    Ok(Header(id, flags as bv16, qd, an, ns, ar), p6)
  }

  function EncodeHeader(h: Header): Emission {
    Plain(BytesOfU16(h.id)).Then(Plain(BytesOfFlags(h.flags))).Then(Plain(BytesOfU16(h.qdcount)))
    .Then(Plain(BytesOfU16(h.ancount))).Then(Plain(BytesOfU16(h.nscount))).Then(Plain(BytesOfU16(h.arcount)))
  }

  function SixWords(w1: Bytes, w2: Bytes, w3: Bytes, w4: Bytes, w5: Bytes, w6: Bytes): Bytes {
    w1 + w2 + w3 + w4 + w5 + w6
  }

  lemma SixWordsAt(b: Bytes, p: nat, w1: Bytes, w2: Bytes, w3: Bytes, w4: Bytes, w5: Bytes, w6: Bytes)
    requires |w1| == |w2| == |w3| == |w4| == |w5| == |w6| == 2
    requires At(b, p, SixWords(w1, w2, w3, w4, w5, w6))
    ensures At(b, p, w1) && At(b, p + 2, w2) && At(b, p + 4, w3)
    ensures At(b, p + 6, w4) && At(b, p + 8, w5) && At(b, p + 10, w6)
  {
    AtSplit(b, p, w1 + w2 + w3 + w4 + w5, w6);
    AtSplit(b, p, w1 + w2 + w3 + w4, w5);
    AtSplit(b, p, w1 + w2 + w3, w4);
    AtSplit(b, p, w1 + w2, w3);
    AtSplit(b, p, w1, w2);
  }

  lemma HeaderIsSixWords(h: Header)
    ensures EncodeHeader(h) == Plain(SixWords(BytesOfU16(h.id), BytesOfFlags(h.flags), BytesOfU16(h.qdcount),
                                              BytesOfU16(h.ancount), BytesOfU16(h.nscount), BytesOfU16(h.arcount)))
    ensures |EncodeHeader(h).bytes| == 12
  {
  }

  /** A printed header reads back, bit for bit, whatever surrounds it. */
  lemma PrintedHeaderReadsBack(b: Bytes, p: nat, h: Header)
    requires At(b, p, EncodeHeader(h).bytes)
    ensures ReadHeader(b, p) == Ok(h, p + 12)
  {
    HeaderIsSixWords(h);
    SixWordsReadBack(b, p, h.id, h.flags as int, h.qdcount, h.ancount, h.nscount, h.arcount);
  }

  lemma SixWordsReadBack(b: Bytes, p: nat, v1: u16, v2: u16, v3: u16, v4: u16, v5: u16, v6: u16)
    requires At(b, p, SixWords(BytesOfU16(v1), BytesOfU16(v2), BytesOfU16(v3),
                               BytesOfU16(v4), BytesOfU16(v5), BytesOfU16(v6)))
    ensures ReadU16(b, p) == Ok(v1, p + 2) && ReadU16(b, p + 2) == Ok(v2, p + 4)
    ensures ReadU16(b, p + 4) == Ok(v3, p + 6) && ReadU16(b, p + 6) == Ok(v4, p + 8)
    ensures ReadU16(b, p + 8) == Ok(v5, p + 10) && ReadU16(b, p + 10) == Ok(v6, p + 12)
  {
    SixWordsAt(b, p, BytesOfU16(v1), BytesOfU16(v2), BytesOfU16(v3), BytesOfU16(v4), BytesOfU16(v5), BytesOfU16(v6));
    ReadU16At(b, p, v1);
    ReadU16At(b, p + 2, v2);
    ReadU16At(b, p + 4, v3);
    ReadU16At(b, p + 6, v4);
    ReadU16At(b, p + 8, v5);
    ReadU16At(b, p + 10, v6);
  }

  method Read(buffer: BytePacketBuffer) returns (r: Result<Header>)
    requires buffer.Valid()
    modifies buffer`pos
    ensures buffer.Valid() && buffer.pos == ReadHeader(buffer.Contents(), old(buffer.pos)).next
    ensures r == ReadHeader(buffer.Contents(), old(buffer.pos)).ToResult()
  {
    var id :- buffer.ReadU16();
    var flags :- buffer.ReadU16();
    var qd :- buffer.ReadU16();
    var an :- buffer.ReadU16();
    var ns :- buffer.ReadU16();
    var ar :- buffer.ReadU16();
    r := Success(Header(id, flags as bv16, qd, an, ns, ar));
  }

  method Write(h: Header, buffer: BytePacketBuffer) returns (r: Outcome)
    requires buffer.Valid()
    modifies buffer`pos, buffer`len, buffer.buff
    ensures buffer.Valid() && buffer.Now() == After(old(buffer.Now()), EncodeHeader(h))
    ensures r == Verdict(old(buffer.Now()), EncodeHeader(h))
  {
    ghost var s := buffer.Now();
    ghost var w1, w2 := Plain(BytesOfU16(h.id)), Plain(BytesOfFlags(h.flags));
    ghost var w3, w4 := Plain(BytesOfU16(h.qdcount)), Plain(BytesOfU16(h.ancount));
    ghost var w5, w6 := Plain(BytesOfU16(h.nscount)), Plain(BytesOfU16(h.arcount));
    PrintInSequence(s, w1, w2);
    PrintInSequence(s, w1.Then(w2), w3);
    PrintInSequence(s, w1.Then(w2).Then(w3), w4);
    PrintInSequence(s, w1.Then(w2).Then(w3).Then(w4), w5);
    PrintInSequence(s, w1.Then(w2).Then(w3).Then(w4).Then(w5), w6);
    :- buffer.WriteU16(h.id);
    :- buffer.WriteU16(h.flags as int);
    :- buffer.WriteU16(h.qdcount);
    :- buffer.WriteU16(h.ancount);
    :- buffer.WriteU16(h.nscount);
    r := buffer.WriteU16(h.arcount);
  }
}
