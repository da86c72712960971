/**
 The wire format, read off sections 3.1, 4.1.1 to 4.1.4 of RFC 1035 and section 6.1 of RFC 6891 as
 relations over the bytes, without a parser: which names, records and packets stand where.

 The theorems say that the parser accepts exactly what stands in the bytes, and as that.
 */
module Grammar {
  import opened Wire
  import opened Names
  import opened Headers
  import opened Records
  import opened Packets

  // ----- Words -----

  /** Two bytes, the high one first. */
  ghost function Word(b: Bytes, p: nat): u16
    requires p + 2 <= |b|
  {
    var high: int, low: int := b[p], b[p + 1];
    high * 256 + low
  }

  /** Four bytes, the highest one first. */
  ghost function Long(b: Bytes, p: nat): u32
    requires p + 4 <= |b|
  {
    var b0: int, b1: int, b2: int, b3: int := b[p], b[p + 1], b[p + 2], b[p + 3];
    b0 * 16777216 + b1 * 65536 + b2 * 256 + b3
  }

  ghost predicate WordReads(b: Bytes, p: nat) {
    if p + 2 <= |b| then ReadU16(b, p) == Ok(Word(b, p), p + 2) else ReadU16(b, p).Fail?
  }

  ghost predicate LongReads(b: Bytes, p: nat) {
    if p + 4 <= |b| then ReadU32(b, p) == Ok(Long(b, p), p + 4) else ReadU32(b, p).Fail?
  }

  /** Words are read high byte first, exactly where there are enough bytes. */
  lemma WordsAreBigEndian(b: Bytes, p: nat)
    ensures WordReads(b, p) && LongReads(b, p)
  {
  }

  /** Four bytes are two words: an address is read as a number and kept as its bytes. */
  lemma OctetsOfLong(b: Bytes, p: nat)
    requires p + 4 <= |b|
    ensures Long(b, p) < 0x1_0000_0000 && OctetsOf(Long(b, p)) == b[p..p + 4]
  {
    QuadDigits(b[p], b[p + 1], b[p + 2], b[p + 3]);
  }

  // ----- Names -----

  /** The name stands at `p`, its chain spelled out there or behind pointers, and ends before `q`. */
  ghost predicate NameAt(b: Bytes, p: nat, name: Name, q: nat) {
    exists d :: Denotes(b, p, d) && name == Text(Labels(b, p, d)) && q == Resume(b, p, d)
  }

  lemma NameIff(b: Bytes, p: nat, name: Name, q: nat)
    ensures ReadQName(b, p) == Ok(name, q) <==> NameAt(b, p, name, q)
  {
    ReadQNameSoundAndComplete(b, p);
    if ReadQName(b, p) == Ok(name, q) {
      var d :| Denotes(b, p, d);
      assert name == Text(Labels(b, p, d)) && q == Resume(b, p, d);
    }
  }

  // ----- Records -----

  ghost predicate MXAt(b: Bytes, p: nat, q: nat, d: RData)
    requires d.MX?
  {
    p + 2 <= |b| && d.preference == Word(b, p) && NameAt(b, p + 2, d.exchange, q)
  }

  /** Two names and five words. */
  ghost predicate SOAAt(b: Bytes, p: nat, q: nat, d: RData)
    requires d.SOA?
  {
    exists m, n :: NameAt(b, p, d.primary, m) && NameAt(b, m, d.mailbox, n) && TimersAt(b, n, q, d)
  }

  ghost predicate TimersAt(b: Bytes, n: nat, q: nat, d: RData)
    requires d.SOA?
  {
    && q == n + 20 <= |b|
    && d.serial == Long(b, n) && d.refresh == Long(b, n + 4) && d.retry == Long(b, n + 8)
    && d.expire == Long(b, n + 12) && d.minimum == Long(b, n + 16)
  }

  /** The data of a record stands in `p..q`; its type and OPT's fields are in the ten bytes before. */
  ghost predicate DataAt(b: Bytes, p: nat, q: nat, d: RData)
    requires 10 <= p <= q <= |b|
  {
    var rtype := Word(b, p - 10);
    match d
    case A(o) => rtype == 1 && q == p + 4 && o == b[p..q]
    case AAAA(o) => rtype == 28 && q == p + 16 && o == b[p..q]
    case NS(name) => rtype == 2 && NameAt(b, p, name, q)
    case CNAME(name) => rtype == 5 && NameAt(b, p, name, q)
    case MX(_, _) => rtype == 15 && MXAt(b, p, q, d)
    case SOA(_, _, _, _, _, _, _) => rtype == 6 && SOAAt(b, p, q, d)
    case OPT(size, extendedRcode, version, dnssecOk, options) =>
      && rtype == 41 && size == Word(b, p - 8) && options == b[p..q]
      && extendedRcode == b[p - 6] && version == b[p - 5] && (dnssecOk <==> b[p - 4] >= 128)
    case Unknown(data) => rtype !in {1, 2, 5, 6, 15, 28, 41} && data == b[p..q]
  }

  /** Owner, type, class, TTL, length and as many bytes of data. */
  ghost predicate RecordAt(b: Bytes, p: nat, r: Record, q: nat) {
    exists m :: NameAt(b, p, r.name, m) && FieldsAt(b, m, r, q)
  }

  ghost predicate FieldsAt(b: Bytes, m: nat, r: Record, q: nat) {
    && m + 10 <= |b|
    && r.rtype == Word(b, m) && r.class_ == Word(b, m + 2) && r.ttl == Long(b, m + 4) && r.rdlength == Word(b, m + 8)
    && q == m + 10 + r.rdlength <= |b| && DataAt(b, m + 10, q, r.data)
  }

  /** The fields of OPT that share the TTL. */
  lemma OptFields(b: Bytes, p: nat, options: Bytes)
    requires 10 <= p <= |b|
    ensures OptFrom(Word(b, p - 8), Long(b, p - 6), options)
      == OPT(Word(b, p - 8), b[p - 6], b[p - 5], b[p - 4] >= 128, options)
  {
    var b0: int, b1: int, b2: int, b3: int := b[p - 6], b[p - 5], b[p - 4], b[p - 3];
    var ttl := Long(b, p - 6);
    assert ttl / 0x1_0000 == b0 * 256 + b1;
    assert ttl / 0x100_0000 == b0;
    assert ttl % 0x1_0000 == b2 * 256 + b3;
  }

  lemma SOAIff(b: Bytes, p: nat, d: RData, q: nat)
    ensures ReadSOA(b, p) == Ok(d, q) <==> d.SOA? && SOAAt(b, p, q, d)
  {
    hide ReadQName, NameAt, ReadU32, Word, Long;
    if ReadSOA(b, p) == Ok(d, q) {
      var m := ReadQName(b, p).next;
      var n := ReadQName(b, m).next;
      NameIff(b, p, ReadQName(b, p).value, m);
      NameIff(b, m, ReadQName(b, m).value, n);
      FiveLongs(b, n);
      assert d.SOA? && NameAt(b, p, d.primary, m) && NameAt(b, m, d.mailbox, n) && TimersAt(b, n, q, d);
    }
    if d.SOA? && SOAAt(b, p, q, d) {
      var m: nat, n: nat :| NameAt(b, p, d.primary, m) && NameAt(b, m, d.mailbox, n) && TimersAt(b, n, q, d);
      NameIff(b, p, d.primary, m);
      NameIff(b, m, d.mailbox, n);
      FiveLongs(b, n);
    }
  }

  lemma FiveLongs(b: Bytes, n: nat)
    ensures LongReads(b, n) && LongReads(b, n + 4) && LongReads(b, n + 8) && LongReads(b, n + 12) && LongReads(b, n + 16)
  {
    hide ReadU32, Long;
    WordsAreBigEndian(b, n);
    WordsAreBigEndian(b, n + 4);
    WordsAreBigEndian(b, n + 8);
    WordsAreBigEndian(b, n + 12);
    WordsAreBigEndian(b, n + 16);
  }

  /** The data parser accepts exactly the data that stands there and fills its length. */
  lemma DataIff(b: Bytes, p: nat, n: u16, d: RData)
    requires 10 <= p && p + n <= |b|
    ensures ReadData(b, p, Word(b, p - 10), Word(b, p - 8), Long(b, p - 6), n) == Ok(d, p + n) <==> DataAt(b, p, p + n, d)
  {
    hide ReadQName, NameAt, ReadSOA, SOAAt, OptFrom, OctetsOf, ReadU32, ReadU16, Word, Long;
    WordsAreBigEndian(b, p);
    OptFields(b, p, b[p..p + n]);
    SOAIff(b, p, d, p + n);
    if p + 4 <= |b| {
      OctetsOfLong(b, p);
    }
    match d
    case NS(name) => NameIff(b, p, name, p + n);
    case CNAME(name) => NameIff(b, p, name, p + n);
    case MX(_, exchange) => NameIff(b, p + 2, exchange, p + n);
    case _ =>
  }

  /** The record parser accepts exactly the records that stand in the bytes. */
  lemma RecordIff(b: Bytes, p: nat, r: Record, q: nat)
    ensures ReadRecord(b, p) == Ok(r, q) <==> RecordAt(b, p, r, q)
  {
    hide ReadQName, NameAt, ReadData, DataAt, ReadU32, ReadU16, Word, Long;
    if ReadRecord(b, p) == Ok(r, q) {
      var m := ReadQName(b, p).next;
      NameIff(b, p, r.name, m);
      FieldWords(b, m);
      DataIff(b, m + 10, r.rdlength, r.data);
      assert FieldsAt(b, m, r, q);
    }
    if RecordAt(b, p, r, q) {
      var m: nat :| NameAt(b, p, r.name, m) && FieldsAt(b, m, r, q);
      NameIff(b, p, r.name, m);
      FieldWords(b, m);
      DataIff(b, m + 10, r.rdlength, r.data);
    }
  }

  lemma FieldWords(b: Bytes, m: nat)
    ensures WordReads(b, m) && WordReads(b, m + 2) && LongReads(b, m + 4) && WordReads(b, m + 8)
  {
    hide ReadU32, ReadU16, Word, Long;
    WordsAreBigEndian(b, m);
    WordsAreBigEndian(b, m + 2);
    WordsAreBigEndian(b, m + 4);
    WordsAreBigEndian(b, m + 8);
  }

  // ----- Packets -----

  /** Six words. */
  ghost predicate HeaderAt(b: Bytes, p: nat, h: Header) {
    && p + 12 <= |b|
    && h.id == Word(b, p) && h.flags == Word(b, p + 2) as bv16
    && h.qdcount == Word(b, p + 4) && h.ancount == Word(b, p + 6)
    && h.nscount == Word(b, p + 8) && h.arcount == Word(b, p + 10)
  }

  /** A name, a type and a class. */
  ghost predicate QuestionAt(b: Bytes, p: nat, x: Question, q: nat) {
    exists m: nat :: NameAt(b, p, x.name, m) && q == m + 4 <= |b| && x.qtype == Word(b, m) && x.class_ == Word(b, m + 2)
  }

  ghost predicate OptionalQuestionAt(b: Bytes, p: nat, x: Option<Question>, q: nat) {
    if x.Some? then QuestionAt(b, p, x.value, q) else q == p
  }

  /** Records, one after the other. */
  ghost predicate RecordsAt(b: Bytes, p: nat, rs: seq<Record>, q: nat)
    decreases |rs|
  {
    if rs == [] then q == p else exists m: nat :: RecordAt(b, p, rs[0], m) && RecordsAt(b, m, rs[1..], q)
  }

  /** A header with the section sizes, at most one question, and three sections. */
  ghost predicate PacketAt(b: Bytes, p: nat, k: Packet, q: nat) {
    HeaderAt(b, p, k.header) && CountsMatch(k) && exists p2: nat, p3: nat, p4: nat :: SectionsAt(b, p, k, p2, p3, p4, q)
  }

  ghost predicate SectionsAt(b: Bytes, p: nat, k: Packet, p2: nat, p3: nat, p4: nat, q: nat) {
    && OptionalQuestionAt(b, p + 12, k.question, p2) && RecordsAt(b, p2, k.answers, p3)
    && RecordsAt(b, p3, k.authorities, p4) && RecordsAt(b, p4, k.additionals, q)
  }

  lemma HeaderFromWords(b: Bytes, p: nat)
    requires p + 12 <= |b|
    ensures ReadHeader(b, p) == Ok(Header(Word(b, p), Word(b, p + 2) as bv16, Word(b, p + 4), Word(b, p + 6),
                                          Word(b, p + 8), Word(b, p + 10)), p + 12)
  {
    hide ReadU16, Word;
    WordsAreBigEndian(b, p);
    WordsAreBigEndian(b, p + 2);
    WordsAreBigEndian(b, p + 4);
    WordsAreBigEndian(b, p + 6);
    WordsAreBigEndian(b, p + 8);
    WordsAreBigEndian(b, p + 10);
  }

  lemma HeaderIff(b: Bytes, p: nat, h: Header)
    ensures ReadHeader(b, p).Ok? && ReadHeader(b, p).value == h <==> HeaderAt(b, p, h)
    ensures ReadHeader(b, p).Ok? ==> ReadHeader(b, p).next == p + 12
  {
    hide ReadHeader, Word;
    if ReadHeader(b, p).Ok? {
      HeaderTakesTwelve(b, p);
    }
    if p + 12 <= |b| {
      HeaderFromWords(b, p);
    }
  }

  lemma QuestionIff(b: Bytes, p: nat, x: Question, q: nat)
    ensures ReadQuestion(b, p) == Ok(x, q) <==> QuestionAt(b, p, x, q)
  {
    hide ReadQName, NameAt, ReadU16, Word;
    if ReadQuestion(b, p) == Ok(x, q) {
      var m := ReadQName(b, p).next;
      NameIff(b, p, x.name, m);
      FieldWords(b, m);
      assert NameAt(b, p, x.name, m);
    }
    if QuestionAt(b, p, x, q) {
      var m: nat :| NameAt(b, p, x.name, m) && q == m + 4 <= |b| && x.qtype == Word(b, m) && x.class_ == Word(b, m + 2);
      NameIff(b, p, x.name, m);
      FieldWords(b, m);
    }
  }

  lemma OptionalQuestionIff(b: Bytes, p: nat, x: Option<Question>, count: u16, q: nat)
    requires count <= 1
    ensures ReadOptionalQuestion(b, p, count) == Ok(x, q) <==>
      OptionalQuestionAt(b, p, x, q) && count == (if x.Some? then 1 else 0)
  {
    hide ReadQuestion, QuestionAt;
    if count == 1 && x.Some? {
      QuestionIff(b, p, x.value, q);
    }
  }

  lemma {:induction false} RecordsIff(b: Bytes, p: nat, rs: seq<Record>, n: nat, q: nat)
    ensures ReadRecords(b, p, n) == Ok(rs, q) <==> RecordsAt(b, p, rs, q) && n == |rs|
    decreases n
  {
    hide ReadRecord, RecordAt;
    if n > 0 && ReadRecords(b, p, n) == Ok(rs, q) {
      var m := ReadRecord(b, p).next;
      RecordIff(b, p, rs[0], m);
      RecordsIff(b, m, rs[1..], n - 1, q);
      assert RecordAt(b, p, rs[0], m);
    }
    if n > 0 && RecordsAt(b, p, rs, q) && n == |rs| {
      var m: nat :| RecordAt(b, p, rs[0], m) && RecordsAt(b, m, rs[1..], q);
      RecordIff(b, p, rs[0], m);
      RecordsIff(b, m, rs[1..], n - 1, q);
      assert [rs[0]] + rs[1..] == rs;
    }
  }

  /** The packet parser accepts exactly the packets that stand in the bytes, compressed or not. */
  lemma PacketIff(b: Bytes, p: nat, k: Packet, q: nat)
    ensures ReadPacket(b, p) == Ok(k, q) <==> PacketAt(b, p, k, q)
  {
    hide ReadHeader, HeaderAt, ReadRecords, RecordsAt, ReadOptionalQuestion, OptionalQuestionAt, ReadPacket;
    HeaderIff(b, p, k.header);
    if ReadPacket(b, p) == Ok(k, q) {
      var p2, p3, p4 := PacketHasParts(b, p, k, q);
      HeaderOfPacket(b, p, k, q);
      SectionsIff(b, p, k, p2, p3, p4, q);
      assert SectionsAt(b, p, k, p2, p3, p4, q);
    }
    if PacketAt(b, p, k, q) {
      var p2: nat, p3: nat, p4: nat :| SectionsAt(b, p, k, p2, p3, p4, q);
      SectionsIff(b, p, k, p2, p3, p4, q);
      PacketFromParts(b, p, k, p2, p3, p4, q);
    }
  }

  lemma HeaderOfPacket(b: Bytes, p: nat, k: Packet, q: nat)
    requires ReadPacket(b, p) == Ok(k, q)
    ensures ReadHeader(b, p).Ok? && ReadHeader(b, p).value == k.header
  {
    hide ReadHeader, ReadRecords, ReadOptionalQuestion;
  }

  lemma SectionsIff(b: Bytes, p: nat, k: Packet, p2: nat, p3: nat, p4: nat, q: nat)
    requires k.header.qdcount <= 1
    ensures PacketParts(b, p, k, p2, p3, p4, q) <==> SectionsAt(b, p, k, p2, p3, p4, q) && CountsMatch(k)
  {
    hide ReadRecords, RecordsAt, ReadOptionalQuestion, OptionalQuestionAt;
    OptionalQuestionIff(b, p + 12, k.question, k.header.qdcount, p2);
    RecordsIff(b, p2, k.answers, k.header.ancount, p3);
    RecordsIff(b, p3, k.authorities, k.header.nscount, p4);
    RecordsIff(b, p4, k.additionals, k.header.arcount, q);
  }

  // ----- What printing puts there -----

  /** Name `m` is `n` without the last dot, the empty name being the root. */
  ghost predicate SameName(n: Name, m: Name) {
    if n == [] || n == [DOT] then m == [DOT]
    else if n[|n| - 1] == DOT then m + [DOT] == n
    else m == n
  }

  /** The same data, up to the spelling of its names. */
  ghost predicate SameData(d: RData, e: RData) {
    match d
    case NS(name) => e.NS? && SameName(name, e.nameServer)
    case CNAME(name) => e.CNAME? && SameName(name, e.canonicalName)
    case MX(preference, exchange) => e.MX? && e.preference == preference && SameName(exchange, e.exchange)
    case SOA(primary, mailbox, serial, refresh, retry, expire, minimum) =>
      && e.SOA? && e == SOA(e.primary, e.mailbox, serial, refresh, retry, expire, minimum)
      && SameName(primary, e.primary) && SameName(mailbox, e.mailbox)
    case _ => e == d
  }

  ghost predicate SameRecord(r: Record, s: Record) {
    SameName(r.name, s.name) && s.rtype == r.rtype && s.class_ == r.class_ && s.ttl == r.ttl && SameData(r.data, s.data)
  }

  ghost predicate SameRecords(rs: seq<Record>, ss: seq<Record>) {
    |rs| == |ss| && forall i :: 0 <= i < |rs| ==> SameRecord(rs[i], ss[i])
  }

  ghost predicate SameQuestion(x: Option<Question>, y: Option<Question>) {
    if x.None? then y.None?
    else y.Some? && SameName(x.value.name, y.value.name) && y.value.qtype == x.value.qtype && y.value.class_ == x.value.class_
  }

  /** The same packet, up to the spelling of its names, RDLENGTH fields and section counts. */
  ghost predicate SamePacket(k: Packet, l: Packet) {
    && l.header.id == k.header.id && l.header.flags == k.header.flags && SameQuestion(k.question, l.question)
    && SameRecords(k.answers, l.answers) && SameRecords(k.authorities, l.authorities)
    && SameRecords(k.additionals, l.additionals)
  }

  lemma CanonIsSameName(n: Name, m: Name)
    ensures m == Canon(n) <==> SameName(n, m)
  {
    if n != [] && n != [DOT] && n[|n| - 1] == DOT {
      assert n[..|n| - 1] + [DOT] == n;
      assert m + [DOT] == n ==> m == n[..|n| - 1];
    }
  }

  lemma CanonIsSameRecord(r: Record)
    ensures SameRecord(r, CanonRecord(r))
  {
    hide Canon, SameName;
    CanonIsSameName(r.name, Canon(r.name));
    match r.data
    case NS(name) => CanonIsSameName(name, Canon(name));
    case CNAME(name) => CanonIsSameName(name, Canon(name));
    case MX(_, exchange) => CanonIsSameName(exchange, Canon(exchange));
    case SOA(primary, mailbox, _, _, _, _, _) =>
      CanonIsSameName(primary, Canon(primary));
      CanonIsSameName(mailbox, Canon(mailbox));
    case _ =>
  }

  lemma CanonIsSamePacket(k: Packet)
    ensures SamePacket(k, CanonPacket(k))
  {
    hide CanonRecord, SameRecord, Canon, SameName;
    forall r: Record
      ensures SameRecord(r, CanonRecord(r))
    {
      CanonIsSameRecord(r);
    }
    if k.question.Some? {
      CanonIsSameName(k.question.value.name, Canon(k.question.value.name));
    }
  }

  /** What is printed of a well-formed packet is, wherever it stands, that packet in the wire format. */
  lemma PrintedPacketStands(b: Bytes, p: nat, k: Packet)
    requires PacketWellFormed(k) && EncodePacket(k).error.None?
    requires At(b, p, EncodePacket(k).bytes) && |EncodePacket(k).bytes| < 0x1_0000
    ensures PacketAt(b, p, CanonPacket(k), p + |EncodePacket(k).bytes|) && SamePacket(k, CanonPacket(k))
  {
    hide PacketAt, SamePacket, ReadPacket, EncodePacket, PacketWellFormed, CanonPacket;
    PrintedPacketReadsBack(b, p, k);
    PacketIff(b, p, CanonPacket(k), p + |EncodePacket(k).bytes|);
    CanonIsSamePacket(k);
  }

  // ----- What can be printed -----

  /** The root, and labels of 1 to 63 bytes with dots between them and possibly one at the end. */
  ghost predicate NamePrints(n: Name) {
    n == [] || n == [DOT] || exists ls :: Dotted(n, ls)
  }

  ghost function NamesIn(d: RData): set<Name> {
    match d
    case NS(name) => {name}
    case CNAME(name) => {name}
    case MX(_, exchange) => {exchange}
    case SOA(primary, mailbox, _, _, _, _, _) => {primary, mailbox}
    case _ => {}
  }

  /** Names too long for an RDLENGTH of 16 bits. */
  ghost predicate TooLong(d: RData) {
    || (exists n :: n in NamesIn(d) && |EncodeName(n).bytes| > 0xFFFF)
    || (d.SOA? && |EncodeName(d.primary).bytes| + |EncodeName(d.mailbox).bytes| + 20 > 0xFFFF)
  }

  lemma NamePrintsIff(n: Name)
    ensures EncodeName(n).error.None? <==> NamePrints(n)
  {
    PrintableIff(n);
  }

  /** A record prints exactly if its names do and are not too long for the RDLENGTH. */
  lemma RecordPrintsIff(r: Record)
    ensures EncodeRecord(r).error.None? <==>
      NamePrints(r.name) && (forall n :: n in NamesIn(r.data) ==> NamePrints(n)) && !TooLong(r.data)
  {
    hide EncodeName, QNameWireLength, NamePrints;
    NamePrintsIff(r.name);
    forall n | n in NamesIn(r.data)
      ensures EncodeName(n).error.None? <==> NamePrints(n)
      ensures EncodeName(n).error.None? ==>
        QNameWireLength(n) == if |EncodeName(n).bytes| > 0xFFFF then Failure(LengthError) else Success(|EncodeName(n).bytes|)
    {
      NamePrintsIff(n);
      if EncodeName(n).error.None? {
        WireLengthIsExact(n);
      }
    }
  }

  lemma {:induction false} RecordsPrintIff(rs: seq<Record>)
    ensures EncodeRecords(rs).error.None? <==> forall i :: 0 <= i < |rs| ==> EncodeRecord(rs[i]).error.None?
  {
    hide EncodeRecord;
    if rs != [] {
      RecordsPrintIff(rs[1..]);
      assert forall i :: 0 < i < |rs| ==> rs[i] == rs[1..][i - 1];
      assert forall i :: 0 <= i < |rs[1..]| ==> rs[1..][i] == rs[i + 1];
    }
  }

  /** A packet prints exactly if its question's name and all its records do. */
  lemma PacketPrintsIff(k: Packet)
    ensures EncodePacket(k).error.None? <==>
      && (k.question.Some? ==> NamePrints(k.question.value.name))
      && (forall r :: r in k.answers + k.authorities + k.additionals ==> EncodeRecord(r).error.None?)
  {
    hide EncodeRecord, EncodeRecords, EncodeName, NamePrints;
    RecordsPrintIff(k.answers);
    RecordsPrintIff(k.authorities);
    RecordsPrintIff(k.additionals);
    if k.question.Some? {
      NamePrintsIff(k.question.value.name);
    }
    var all := k.answers + k.authorities + k.additionals;
    assert forall i :: 0 <= i < |k.answers| ==> k.answers[i] in all;
    assert forall i :: 0 <= i < |k.authorities| ==> k.authorities[i] in all;
    assert forall i :: 0 <= i < |k.additionals| ==> k.additionals[i] in all;
  }
}
