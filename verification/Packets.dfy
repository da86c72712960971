/**
 Whole packets: header, at most one question, three record sections, and the EDNS option record.
 */
module Packets {
  import opened Wire
  import opened Names
  import opened Buffer
  import opened Headers
  import opened Records

  datatype Question = Question(name: Name, qtype: u16, class_: u16)

  datatype EdnsInfo = EdnsInfo(maxPayloadSize: u16, dnssecOk: bool, version: byte)

  datatype Packet = Packet(header: Header, question: Option<Question>, answers: seq<Record>,
                           authorities: seq<Record>, additionals: seq<Record>)
  {
    /** The first OPT record of the additional section, its size clamped to 512..1232. */
    function GetEdnsInfo(): Option<EdnsInfo> {
      FindEdns(additionals)
    }

    function SetQuestion(q: Question): Packet { this.(question := Some(q)) }

    function AddOpt(udpPayloadSize: u16, extendedRcode: byte, version: byte, dnssecOk: bool): Packet {
      this.(additionals := additionals + [OptRecord(udpPayloadSize, extendedRcode, version, dnssecOk)])
    }

    /** The counts `write` puts in the header: the section sizes, cast to 16 bits. */
    function Synced(): Packet {
      this.(header := header.SetCounts(if question.Some? then 1 else 0, |answers| % 0x1_0000,
                                       |authorities| % 0x1_0000, |additionals| % 0x1_0000))
    }
  }

  const EMPTY_PACKET: Packet := Packet(BLANK, None, [], [], [])

  function FindEdns(rs: seq<Record>): Option<EdnsInfo> {
    if rs == [] then None
    else if rs[0].data.OPT? then
      var opt := rs[0].data;
      Some(EdnsInfo(Min(Max(512, opt.udpPayloadSize), 1232), opt.dnssecOk, opt.version))
    else FindEdns(rs[1..])
  }

  function OptRecord(udpPayloadSize: u16, extendedRcode: byte, version: byte, dnssecOk: bool): Record {
    var er: int, v: int := extendedRcode, version;
    var ttl := er * 0x100_0000 + v * 0x1_0000 + if dnssecOk then 0x8000 else 0;
    Record([], TYPE_OPT, udpPayloadSize, ttl, 0, OPT(udpPayloadSize, extendedRcode, version, dnssecOk, []))
  }

  /** Record `i` is the first OPT record of the section. */
  ghost predicate FirstOpt(rs: seq<Record>, i: int) {
    0 <= i < |rs| && rs[i].data.OPT? && forall j :: 0 <= j < i ==> !rs[j].data.OPT?
  }

  /** EDNS information is there exactly if there is an OPT record, and it is that of the first one:
      its DO bit, its version, and its size, clamped to 512..1232. */
  lemma {:induction false} EdnsComesFromFirstOpt(rs: seq<Record>)
    ensures FindEdns(rs).None? <==> forall i :: 0 <= i < |rs| ==> !rs[i].data.OPT?
    ensures FindEdns(rs).Some? ==> exists i :: FirstOpt(rs, i)
    ensures forall i :: FirstOpt(rs, i) ==>
      FindEdns(rs) == Some(EdnsInfo(Min(Max(512, rs[i].data.udpPayloadSize), 1232), rs[i].data.dnssecOk, rs[i].data.version))
  {
    if rs != [] && !rs[0].data.OPT? {
      var rest := rs[1..];
      EdnsComesFromFirstOpt(rest);
      assert forall i :: 0 <= i < |rest| ==> rs[i + 1] == rest[i];
      forall i | FirstOpt(rs, i)
        ensures FirstOpt(rest, i - 1)
      {
        assert rs[i] == rest[i - 1];
      }
      if FindEdns(rest).Some? {
        var i :| FirstOpt(rest, i);
        assert forall j :: 0 < j <= i ==> rs[j] == rest[j - 1];
        assert FirstOpt(rs, i + 1);
      } else {
        assert forall i :: 0 < i < |rs| ==> rs[i] == rest[i - 1];
      }
    } else if rs != [] {
      assert FirstOpt(rs, 0);
    }
  }

  /** The option record the server makes unpacks to what was packed into its class and TTL. */
  lemma OptRecordWellFormed(size: u16, extendedRcode: byte, version: byte, dnssecOk: bool)
    ensures WellFormed(OptRecord(size, extendedRcode, version, dnssecOk))
  {
    var er: int, v: int, d: int := extendedRcode, version, if dnssecOk then 1 else 0;
    var ttl := er * 0x100_0000 + v * 0x1_0000 + d * 0x8000;
    assert ttl / 0x1_0000 == er * 0x100 + v;
    assert ttl / 0x100_0000 == er;
  }

  // ----- Parsing -----

  function ReadQuestion(b: Bytes, p: nat): Parsed<Question> {
    var (name, p1) :- ReadQName(b, p);
    var (qtype, p2) :- ReadU16(b, p1);
    var (class_, p3) :- ReadU16(b, p2);
    Ok(Question(name, qtype, class_), p3)
  }

  function ReadRecords(b: Bytes, p: nat, n: nat): Parsed<seq<Record>>
    decreases n
  {
    if n == 0 then Ok([], p)
    else
      var (r, q) :- ReadRecord(b, p);
      var (rs, q') :- ReadRecords(b, q, n - 1);
      Ok([r] + rs, q')
  }

  function ReadOptionalQuestion(b: Bytes, p: nat, count: u16): Parsed<Option<Question>> {
    if count == 1 then var (q, p1) :- ReadQuestion(b, p); Ok(Some(q), p1) else Ok(None, p)
  }

  function ReadPacket(b: Bytes, p: nat): Parsed<Packet> {
    var (h, p1) :- ReadHeader(b, p);
    if h.qdcount > 1 then Fail(RuntimeError, p1)
    else
      var (question, p2) :- ReadOptionalQuestion(b, p1, h.qdcount);
      var (answers, p3) :- ReadRecords(b, p2, h.ancount);
      var (authorities, p4) :- ReadRecords(b, p3, h.nscount);
      var (additionals, p5) :- ReadRecords(b, p4, h.arcount);
      Ok(Packet(h, question, answers, authorities, additionals), p5)
  }

  // ----- Printing -----

  function EncodeQuestion(q: Question): Emission {
    EncodeName(q.name).Then(Plain(BytesOfU16(q.qtype))).Then(Plain(BytesOfU16(q.class_)))
  }

  function EncodeOptionalQuestion(q: Option<Question>): Emission {
    if q.Some? then EncodeQuestion(q.value) else Plain([])
  }

  function EncodeRecords(rs: seq<Record>): Emission {
    if rs == [] then Plain([]) else EncodeRecord(rs[0]).Then(EncodeRecords(rs[1..]))
  }

  function EncodePacket(p: Packet): Emission {
    EncodeHeader(p.Synced().header).Then(EncodeOptionalQuestion(p.question)).Then(EncodeRecords(p.answers))
    .Then(EncodeRecords(p.authorities)).Then(EncodeRecords(p.additionals))
  }

  // ----- Counts -----

  lemma PrintedRecordSize(r: Record)
    requires EncodeRecord(r).error.None?
    ensures |EncodeRecord(r).bytes| >= 11
  {
  }

  lemma {:induction false} PrintedRecordsSize(rs: seq<Record>)
    requires EncodeRecords(rs).error.None?
    ensures |EncodeRecords(rs).bytes| >= 11 * |rs|
  {
    if rs != [] {
      PrintedRecordSize(rs[0]);
      PrintedRecordsSize(rs[1..]);
    }
  }

  /** The number of records in a packet. */
  function RecordCount(p: Packet): nat {
    |p.answers| + |p.authorities| + |p.additionals|
  }

  ghost predicate CountsMatch(p: Packet) {
    && p.header.qdcount == (if p.question.Some? then 1 else 0)
    && p.header.ancount == |p.answers| && p.header.nscount == |p.authorities| && p.header.arcount == |p.additionals|
  }

  lemma PrintedPacketParts(p: Packet)
    requires EncodePacket(p).error.None?
    ensures EncodeOptionalQuestion(p.question).error.None? && EncodeRecords(p.answers).error.None?
    ensures EncodeRecords(p.authorities).error.None? && EncodeRecords(p.additionals).error.None?
    ensures EncodePacket(p).bytes == EncodeHeader(p.Synced().header).bytes + EncodeOptionalQuestion(p.question).bytes
      + EncodeRecords(p.answers).bytes + EncodeRecords(p.authorities).bytes + EncodeRecords(p.additionals).bytes
  {
  }

  /** A packet that prints into fewer than 64 KiB loses no count to the 16-bit casts. */
  lemma PrintedCounts(p: Packet)
    requires EncodePacket(p).error.None?
    ensures 12 + 11 * RecordCount(p) <= |EncodePacket(p).bytes|
    ensures |EncodePacket(p).bytes| < 0x1_0000 ==> CountsMatch(p.Synced())
  {
    hide EncodeRecords, EncodeHeader, EncodeOptionalQuestion, EncodePacket;
    PrintedPacketParts(p);
    HeaderIsSixWords(p.Synced().header);
    PrintedRecordsSize(p.answers);
    PrintedRecordsSize(p.authorities);
    PrintedRecordsSize(p.additionals);
  }

  /** A packet printed into a fresh buffer holds at most 110 records, all of them counted. */
  lemma PrintedPacketIsBounded(s: State, p: Packet)
    requires s.Valid() && s.pos == 0 && s.len == 0 && Verdict(s, EncodePacket(p)).Pass?
    ensures CountsMatch(p.Synced()) && RecordCount(p) <= 110
  {
    FreshPrint(s, EncodePacket(p));
    PrintedCounts(p);
  }

  lemma {:induction false} ParsedRecordsAreWellFormed(b: Bytes, p: nat, n: nat, rs: seq<Record>, q: nat)
    requires p <= |b| && ReadRecords(b, p, n) == Ok(rs, q)
    ensures |rs| == n && p + 11 * n <= q <= |b|
    ensures forall i :: 0 <= i < |rs| ==> WellFormed(rs[i])
    decreases n
  {
    hide ReadRecord, WellFormed;
    if n > 0 {
      var r, p1 := ReadRecord(b, p).value, ReadRecord(b, p).next;
      ParsedRecordIsWellFormed(b, p, r, p1);
      ParsedRecordsAreWellFormed(b, p1, n - 1, ReadRecords(b, p1, n - 1).value, q);
    }
  }

  ghost predicate AllWellFormed(rs: seq<Record>) {
    forall i :: 0 <= i < |rs| ==> WellFormed(rs[i])
  }

  ghost predicate QuestionReadable(q: Option<Question>) {
    q.Some? ==> Readable(q.value.name)
  }

  ghost predicate PacketWellFormed(p: Packet) {
    QuestionReadable(p.question) && AllWellFormed(p.answers) && AllWellFormed(p.authorities) && AllWellFormed(p.additionals)
  }

  ghost predicate PacketParts(b: Bytes, p: nat, k: Packet, p2: nat, p3: nat, p4: nat, q: nat) {
    && ReadOptionalQuestion(b, p + 12, k.header.qdcount) == Ok(k.question, p2)
    && ReadRecords(b, p2, k.header.ancount) == Ok(k.answers, p3)
    && ReadRecords(b, p3, k.header.nscount) == Ok(k.authorities, p4)
    && ReadRecords(b, p4, k.header.arcount) == Ok(k.additionals, q)
  }

  lemma PacketHasParts(b: Bytes, p: nat, k: Packet, q: nat) returns (p2: nat, p3: nat, p4: nat)
    requires ReadPacket(b, p) == Ok(k, q)
    ensures p + 12 <= |b| && k.header.qdcount <= 1
    ensures PacketParts(b, p, k, p2, p3, p4, q)
  {
    hide ReadRecords, ReadOptionalQuestion, ReadHeader;
    HeaderTakesTwelve(b, p);
    var p1 := ReadHeader(b, p).next;
    p2 := ReadOptionalQuestion(b, p1, k.header.qdcount).next;
    p3 := ReadRecords(b, p2, k.header.ancount).next;
    p4 := ReadRecords(b, p3, k.header.nscount).next;
  }

  lemma HeaderTakesTwelve(b: Bytes, p: nat)
    requires ReadHeader(b, p).Ok?
    ensures ReadHeader(b, p).next == p + 12 <= |b|
  {
    assert ReadU16(b, p).next == p + 2;
    assert ReadU16(b, p + 2).next == p + 4;
    assert ReadU16(b, p + 4).next == p + 6;
    assert ReadU16(b, p + 6).next == p + 8;
    assert ReadU16(b, p + 8).next == p + 10;
  }

  lemma ParsedQuestionIsReadable(b: Bytes, p: nat, count: u16, question: Option<Question>, q: nat)
    requires p <= |b| && count <= 1 && ReadOptionalQuestion(b, p, count) == Ok(question, q)
    ensures QuestionReadable(question) && (question.Some? <==> count == 1) && p <= q <= |b|
  {
    if count == 1 {
      ParsedNameFits(b, p);
    }
  }

  /** Whatever bytes a packet was parsed from: it is well formed, its counts are its section
      sizes, and a count the bytes cannot back is not accepted. */
  lemma ParsedPacketIsWellFormed(b: Bytes, p: nat, k: Packet, q: nat)
    requires p <= |b| && ReadPacket(b, p) == Ok(k, q)
    ensures PacketWellFormed(k) && CountsMatch(k)
    ensures p + 12 + 11 * RecordCount(k) <= q <= |b|
    ensures |b| <= MAX_BUFFER_SIZE ==> RecordCount(k) <= 110
  {
    hide ReadRecords, ReadOptionalQuestion, ReadPacket, WellFormed;
    var p2, p3, p4 := PacketHasParts(b, p, k, q);
    ParsedQuestionIsReadable(b, p + 12, k.header.qdcount, k.question, p2);
    ParsedRecordsAreWellFormed(b, p2, k.header.ancount, k.answers, p3);
    ParsedRecordsAreWellFormed(b, p3, k.header.nscount, k.authorities, p4);
    ParsedRecordsAreWellFormed(b, p4, k.header.arcount, k.additionals, q);
  }

  // ----- Round trips -----

  function CanonRecords(rs: seq<Record>): (cs: seq<Record>)
    ensures |cs| == |rs| && forall i :: 0 <= i < |rs| ==> cs[i] == CanonRecord(rs[i])
  {
    seq(|rs|, i requires 0 <= i < |rs| => CanonRecord(rs[i]))
  }

  function CanonQuestion(q: Option<Question>): Option<Question> {
    if q.Some? then Some(q.value.(name := Canon(q.value.name))) else None
  }

  /** What a printed packet reads back as: names through `Canon`, RDLENGTHs recomputed, counts resynchronised. */
  function CanonPacket(p: Packet): Packet {
    Packet(p.Synced().header,
           CanonQuestion(p.question),
           CanonRecords(p.answers), CanonRecords(p.authorities), CanonRecords(p.additionals))
  }

  lemma PrintedQuestionReadsBack(b: Bytes, p: nat, q: Question)
    requires Readable(q.name) && EncodeQuestion(q).error.None? && At(b, p, EncodeQuestion(q).bytes)
    ensures ReadQuestion(b, p) == Ok(q.(name := Canon(q.name)), p + |EncodeQuestion(q).bytes|)
  {
    hide ReadQName, EncodeName, Canon, At, ReadU16;
    var w := EncodeName(q.name).bytes;
    AtSplit(b, p, w + BytesOfU16(q.qtype), BytesOfU16(q.class_));
    AtSplit(b, p, w, BytesOfU16(q.qtype));
    PrintedNameReadsBack(b, p, q.name);
    ReadU16At(b, p + |w|, q.qtype);
    ReadU16At(b, p + |w| + 2, q.class_);
  }

  lemma PrintedOptionalQuestionReadsBack(b: Bytes, p: nat, q: Option<Question>)
    requires QuestionReadable(q) && EncodeOptionalQuestion(q).error.None?
    requires At(b, p, EncodeOptionalQuestion(q).bytes)
    ensures ReadOptionalQuestion(b, p, if q.Some? then 1 else 0)
      == Ok(CanonQuestion(q), p + |EncodeOptionalQuestion(q).bytes|)
  {
    if q.Some? {
      PrintedQuestionReadsBack(b, p, q.value);
    }
  }

  lemma {:induction false} PrintedRecordsReadBack(b: Bytes, p: nat, rs: seq<Record>)
    requires AllWellFormed(rs) && EncodeRecords(rs).error.None?
    requires At(b, p, EncodeRecords(rs).bytes) && |EncodeRecords(rs).bytes| < 0x1_0000
    ensures ReadRecords(b, p, |rs|) == Ok(CanonRecords(rs), p + |EncodeRecords(rs).bytes|)
    decreases |rs|
  {
    hide ReadRecord, EncodeRecord, CanonRecord, WellFormed;
    if rs == [] {
      assert CanonRecords(rs) == [];
    } else {
      var w := EncodeRecord(rs[0]).bytes;
      AtSplit(b, p, w, EncodeRecords(rs[1..]).bytes);
      PrintedRecordReadsBack(b, p, rs[0]);
      PrintedRecordsReadBack(b, p + |w|, rs[1..]);
      assert CanonRecords(rs) == [CanonRecord(rs[0])] + CanonRecords(rs[1..]);
    }
  }

  lemma FivePartsAt(b: Bytes, p: nat, w1: Bytes, w2: Bytes, w3: Bytes, w4: Bytes, w5: Bytes)
    requires At(b, p, w1 + w2 + w3 + w4 + w5)
    ensures At(b, p, w1) && At(b, p + |w1|, w2) && At(b, p + |w1| + |w2|, w3)
    ensures At(b, p + |w1| + |w2| + |w3|, w4) && At(b, p + |w1| + |w2| + |w3| + |w4|, w5)
  {
    AtSplit(b, p, w1 + w2 + w3 + w4, w5);
    AtSplit(b, p, w1 + w2 + w3, w4);
    AtSplit(b, p, w1 + w2, w3);
    AtSplit(b, p, w1, w2);
  }

  lemma PacketFromParts(b: Bytes, p: nat, k: Packet, p2: nat, p3: nat, p4: nat, q: nat)
    requires ReadHeader(b, p) == Ok(k.header, p + 12) && k.header.qdcount <= 1
    requires PacketParts(b, p, k, p2, p3, p4, q)
    ensures ReadPacket(b, p) == Ok(k, q)
  {
  }

  /** A printed packet reads back, up to `CanonPacket`, wherever it stands. */
  lemma PrintedPacketReadsBack(b: Bytes, p: nat, k: Packet)
    requires PacketWellFormed(k) && EncodePacket(k).error.None?
    requires At(b, p, EncodePacket(k).bytes) && |EncodePacket(k).bytes| < 0x1_0000
    ensures ReadPacket(b, p) == Ok(CanonPacket(k), p + |EncodePacket(k).bytes|)
  {
    hide ReadRecords, EncodeRecords, EncodeHeader, ReadHeader, ReadPacket, EncodePacket,
      ReadOptionalQuestion, EncodeOptionalQuestion, CanonQuestion;
    PrintedPacketParts(k);
    PrintedCounts(k);
    HeaderIsSixWords(k.Synced().header);
    var w1, w2 := EncodeHeader(k.Synced().header).bytes, EncodeOptionalQuestion(k.question).bytes;
    var w3, w4, w5 := EncodeRecords(k.answers).bytes, EncodeRecords(k.authorities).bytes, EncodeRecords(k.additionals).bytes;
    FivePartsAt(b, p, w1, w2, w3, w4, w5);
    PrintedHeaderReadsBack(b, p, k.Synced().header);
    var p2 := p + 12 + |w2|;
    var p3 := p2 + |w3|;
    var p4 := p3 + |w4|;
    PrintedOptionalQuestionReadsBack(b, p + 12, k.question);
    PrintedRecordsReadBack(b, p2, k.answers);
    PrintedRecordsReadBack(b, p3, k.authorities);
    PrintedRecordsReadBack(b, p4, k.additionals);
    PacketFromParts(b, p, CanonPacket(k), p2, p3, p4, p4 + |w5|);
  }

  /** Print, then parse: every well-formed packet that fits a fresh buffer comes back. */
  lemma PrintThenParse(s: State, k: Packet)
    requires s.Valid() && s.pos == 0 && s.len == 0
    requires PacketWellFormed(k) && Verdict(s, EncodePacket(k)).Pass?
    ensures var t := After(s, EncodePacket(k)); ReadPacket(t.Contents(), 0) == Ok(CanonPacket(k), t.len)
    ensures CountsMatch(CanonPacket(k))
  {
    hide ReadPacket, EncodePacket;
    FreshPrint(s, EncodePacket(k));
    var w := EncodePacket(k).bytes;
    assert w[0..|w|] == w;
    PrintedPacketReadsBack(w, 0, k);
    PrintedPacketIsBounded(s, k);
  }

  /** Parse, print, parse: re-encoding any datagram the parser accepts, compressed or not, keeps
      its meaning.  Only names change (through `Canon`) and RDLENGTH fields; the header, the
      counts and everything else come back as they were. */
  lemma ReencodingPreservesMeaning(b: Bytes, k: Packet, q: nat, s: State)
    requires s.Valid() && s.pos == 0 && s.len == 0
    requires ReadPacket(b, 0) == Ok(k, q) && Verdict(s, EncodePacket(k)).Pass?
    ensures var t := After(s, EncodePacket(k)); ReadPacket(t.Contents(), 0) == Ok(CanonPacket(k), t.len)
    ensures CanonPacket(k).header == k.header
  {
    ParsedPacketIsWellFormed(b, 0, k, q);
    PrintThenParse(s, k);
  }

  // ----- The methods -----

  method ReadQuestionFrom(buffer: BytePacketBuffer) returns (r: Result<Question>)
    requires buffer.Valid()
    modifies buffer`pos
    ensures buffer.Valid() && buffer.pos == ReadQuestion(buffer.Contents(), old(buffer.pos)).next
    ensures r == ReadQuestion(buffer.Contents(), old(buffer.pos)).ToResult()
  {
    var name :- buffer.ReadQName();
    var qtype :- buffer.ReadU16();
    var class_ :- buffer.ReadU16();
    r := Success(Question(name, qtype, class_));
  }

  /** What is read after the records `done`. */
  ghost function Following(done: seq<Record>, rest: Parsed<seq<Record>>): Parsed<seq<Record>> {
    match rest
    case Ok(rs, q) => Ok(done + rs, q)
    case Fail(e, q) => Fail(e, q)
  }

  method ReadSection(buffer: BytePacketBuffer, count: u16) returns (r: Result<seq<Record>>)
    requires buffer.Valid()
    modifies buffer`pos
    ensures buffer.Valid() && buffer.pos == ReadRecords(buffer.Contents(), old(buffer.pos), count).next
    ensures r == ReadRecords(buffer.Contents(), old(buffer.pos), count).ToResult()
  {
    hide ReadRecord;
    ghost var b := buffer.Contents();
    ghost var whole := ReadRecords(b, buffer.pos, count);
    var records: seq<Record> := [];
    assert whole.Ok? ==> [] + whole.value == whole.value;
    for i := 0 to count
      invariant buffer.Valid() && buffer.Contents() == b
      invariant Following(records, ReadRecords(b, buffer.pos, count - i)) == whole
    {
      ghost var rest := ReadRecords(b, buffer.pos, count - i);
      ghost var p := buffer.pos;
      var record :- Records.Read(buffer);
      assert rest == Following([record], ReadRecords(b, buffer.pos, count - i - 1));
      if rest.Ok? {
        assert records + ([record] + ReadRecords(b, buffer.pos, count - i - 1).value)
            == records + [record] + ReadRecords(b, buffer.pos, count - i - 1).value;
      }
      records := records + [record];
    }
    assert records + [] == records;
    r := Success(records);
  }

  method Read(buffer: BytePacketBuffer) returns (r: Result<Packet>)
    requires buffer.Valid()
    modifies buffer`pos
    ensures buffer.Valid() && buffer.pos == ReadPacket(buffer.Contents(), old(buffer.pos)).next
    ensures r == ReadPacket(buffer.Contents(), old(buffer.pos)).ToResult()
  {
    var header :- Headers.Read(buffer);
    if header.qdcount > 1 { return Failure(RuntimeError); }
    var question: Option<Question> := None;
    if header.qdcount == 1 {
      var q :- ReadQuestionFrom(buffer);
      question := Some(q);
    }
    var answers :- ReadSection(buffer, header.ancount);
    var authorities :- ReadSection(buffer, header.nscount);
    var additionals :- ReadSection(buffer, header.arcount);
    r := Success(Packet(header, question, answers, authorities, additionals));
  }

  method WriteQuestion(q: Question, buffer: BytePacketBuffer) returns (r: Outcome)
    requires buffer.Valid()
    modifies buffer`pos, buffer`len, buffer.buff
    ensures buffer.Valid() && buffer.Now() == After(old(buffer.Now()), EncodeQuestion(q))
    ensures r == Verdict(old(buffer.Now()), EncodeQuestion(q))
  {
    ghost var s := buffer.Now();
    ghost var e1, e2 := EncodeName(q.name), Plain(BytesOfU16(q.qtype));
    PrintInSequence(s, e1, e2);
    PrintInSequence(s, e1.Then(e2), Plain(BytesOfU16(q.class_)));
    :- buffer.WriteQName(q.name);
    :- buffer.WriteU16(q.qtype);
    r := buffer.WriteU16(q.class_);
  }

  method WriteSection(records: seq<Record>, buffer: BytePacketBuffer) returns (r: Outcome)
    requires buffer.Valid()
    modifies buffer`pos, buffer`len, buffer.buff
    ensures buffer.Valid() && buffer.Now() == After(old(buffer.Now()), EncodeRecords(records))
    ensures r == Verdict(old(buffer.Now()), EncodeRecords(records))
  {
    hide After, Verdict, EncodeRecord;
    ghost var s := buffer.Now();
    assert records[0..] == records;
    for i := 0 to |records|
      invariant buffer.Valid()
      invariant After(buffer.Now(), EncodeRecords(records[i..])) == After(s, EncodeRecords(records))
      invariant Verdict(buffer.Now(), EncodeRecords(records[i..])) == Verdict(s, EncodeRecords(records))
    {
      assert records[i..][1..] == records[i + 1..];
      PrintInSequence(buffer.Now(), EncodeRecord(records[i]), EncodeRecords(records[i + 1..]));
      :- Records.Write(records[i], buffer);
    }
    PrintNothing(buffer.Now(), None);
    r := Pass;
  }

  /** Prints the packet and returns it with its header counts resynchronised, as `write` leaves it. */
  method Write(packet: Packet, buffer: BytePacketBuffer) returns (r: Outcome, synced: Packet)
    requires buffer.Valid()
    modifies buffer`pos, buffer`len, buffer.buff
    ensures buffer.Valid() && buffer.Now() == After(old(buffer.Now()), EncodePacket(packet))
    ensures r == Verdict(old(buffer.Now()), EncodePacket(packet))
    ensures synced == packet.Synced()
  {
    synced := packet.Synced();
    r := WriteSections(synced, buffer);
  }

  method WriteSections(packet: Packet, buffer: BytePacketBuffer) returns (r: Outcome)
    requires buffer.Valid() && packet.Synced() == packet
    modifies buffer`pos, buffer`len, buffer.buff
    ensures buffer.Valid() && buffer.Now() == After(old(buffer.Now()), EncodePacket(packet))
    ensures r == Verdict(old(buffer.Now()), EncodePacket(packet))
  {
    ghost var s := buffer.Now();
    ghost var e1, e2 := EncodeHeader(packet.header), EncodeOptionalQuestion(packet.question);
    ghost var e3, e4 := EncodeRecords(packet.answers), EncodeRecords(packet.authorities);
    PrintInSequence(s, e1, e2);
    PrintInSequence(s, e1.Then(e2), e3);
    PrintInSequence(s, e1.Then(e2).Then(e3), e4);
    PrintInSequence(s, e1.Then(e2).Then(e3).Then(e4), EncodeRecords(packet.additionals));
    :- Headers.Write(packet.header, buffer);
    :- WriteOptionalQuestion(packet.question, buffer);
    :- WriteSection(packet.answers, buffer);
    :- WriteSection(packet.authorities, buffer);
    r := WriteSection(packet.additionals, buffer);
  }

  method WriteOptionalQuestion(q: Option<Question>, buffer: BytePacketBuffer) returns (r: Outcome)
    requires buffer.Valid()
    modifies buffer`pos, buffer`len, buffer.buff
    ensures buffer.Valid() && buffer.Now() == After(old(buffer.Now()), EncodeOptionalQuestion(q))
    ensures r == Verdict(old(buffer.Now()), EncodeOptionalQuestion(q))
  {
    if q.Some? {
      r := WriteQuestion(q.value, buffer);
    } else {
      PrintNothing(buffer.Now(), None);
      r := Pass;
    }
  }
}
