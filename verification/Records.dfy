/**
 Resource records (section 4.1.3 of RFC 1035; section 6.1 of RFC 6891 for OPT): a parser and a
 printer for eight kinds of RDATA, the printer writing RDLENGTH ahead of the bytes it counts.
 */
module Records {
  import opened Wire
  import opened Names
  import opened Buffer

  const TYPE_A: u16 := 1
  const TYPE_NS: u16 := 2
  const TYPE_CNAME: u16 := 5
  const TYPE_SOA: u16 := 6
  const TYPE_MX: u16 := 15
  const TYPE_AAAA: u16 := 28
  const TYPE_OPT: u16 := 41

  type Octets4 = s: Bytes | |s| == 4 witness [0, 0, 0, 0]
  type Octets16 = s: Bytes | |s| == 16 witness [0, 0, 0, 0, 0, 0, 0, 0, 0, 0, 0, 0, 0, 0, 0, 0]

  datatype Address = V4(octets4: Octets4) | V6(octets16: Octets16)

  function OctetsOf(ip: u32): Octets4 {
    [ip / 0x100_0000, ip / 0x1_0000 % 0x100, ip / 0x100 % 0x100, ip % 0x100]
  }

  function ToU32(o: Octets4): u32 {
    var o0: int, o1: int, o2: int, o3: int := o[0], o[1], o[2], o[3];
    o0 * 0x100_0000 + o1 * 0x1_0000 + o2 * 0x100 + o3
  }

  datatype RData =
    | A(ipv4: Octets4)
    | AAAA(ipv6: Octets16)
    | CNAME(canonicalName: Name)
    | MX(preference: u16, exchange: Name)
    | NS(nameServer: Name)
    | SOA(primary: Name, mailbox: Name, serial: u32, refresh: u32, retry: u32, expire: u32, minimum: u32)
    | OPT(udpPayloadSize: u16, extendedRcode: byte, version: byte, dnssecOk: bool, options: Bytes)
    | Unknown(data: Bytes)

  datatype Record = Record(name: Name, rtype: u16, class_: u16, ttl: u32, rdlength: u16, data: RData) {
    function GetIpAddress(): Option<Address> {
      match data
      case A(o) => Some(V4(o))
      case AAAA(o) => Some(V6(o))
      case _ => None
    }
  }

  /** The record holds address `a`: A records and AAAA records do. */
  ghost predicate Holds(r: Record, a: Address) {
    match r.data
    case A(o) => a == V4(o)
    case AAAA(o) => a == V6(o)
    case _ => false
  }

  lemma AddressIff(r: Record, a: Address)
    ensures r.GetIpAddress() == Some(a) <==> Holds(r, a)
  {
  }

  // ----- Parsing -----

  function ReadSOA(b: Bytes, p: nat): Parsed<RData> {
    var (primary, p1) :- ReadQName(b, p);
    var (mailbox, p2) :- ReadQName(b, p1);
    var (serial, p3) :- ReadU32(b, p2);
    var (refresh, p4) :- ReadU32(b, p3);
    var (retry, p5) :- ReadU32(b, p4);
    var (expire, p6) :- ReadU32(b, p5);
    var (minimum, p7) :- ReadU32(b, p6);
    Ok(SOA(primary, mailbox, serial, refresh, retry, expire, minimum), p7)
  }

  function OptFrom(class_: u16, ttl: u32, options: Bytes): RData {
    OPT(class_, ttl / 0x100_0000 % 0x100, ttl / 0x1_0000 % 0x100, ttl % 0x1_0000 / 0x8000 % 2 != 0, options)
  }

  function ReadData(b: Bytes, p: nat, rtype: u16, class_: u16, ttl: u32, rdlength: u16): Parsed<RData> {
    if rtype == TYPE_A then
      if rdlength != 4 then Fail(RuntimeError, p)
      else var (ip, q) :- ReadU32(b, p); Ok(A(OctetsOf(ip)), q)
    else if rtype == TYPE_AAAA then
      if rdlength != 16 then Fail(RuntimeError, p)
      else ReadAAAA(b, p)
    else if rtype == TYPE_CNAME then
      var (name, q) :- ReadQName(b, p); Ok(CNAME(name), q)
    else if rtype == TYPE_MX then
      var (preference, p1) :- ReadU16(b, p);
      var (exchange, q) :- ReadQName(b, p1);
      Ok(MX(preference, exchange), q)
    else if rtype == TYPE_NS then
      var (name, q) :- ReadQName(b, p); Ok(NS(name), q)
    else if rtype == TYPE_SOA then
      ReadSOA(b, p)
    else
      var (bytes, q) :- ReadBytes(b, p, rdlength);
      Ok(if rtype == TYPE_OPT then OptFrom(class_, ttl, bytes) else Unknown(bytes), q)
  }

  /** Sixteen single-byte reads: a short buffer leaves the cursor at its end. */
  function ReadAAAA(b: Bytes, p: nat): Parsed<RData> {
    if p + 16 <= |b| then Ok(AAAA(b[p..p + 16]), p + 16)
    else Fail(OutOfRange, if p <= |b| then |b| else p)
  }

  function ReadRecord(b: Bytes, p: nat): Parsed<Record> {
    var (name, p1) :- ReadQName(b, p);
    var (rtype, p2) :- ReadU16(b, p1);
    var (class_, p3) :- ReadU16(b, p2);
    var (ttl, p4) :- ReadU32(b, p3);
    var (rdlength, p5) :- ReadU16(b, p4);
    if rdlength > |b| - p5 then Fail(OutOfRange, p5)
    else
      var (data, q) :- ReadData(b, p5, rtype, class_, ttl, rdlength);
      if q - p5 != rdlength then Fail(RuntimeError, q)
      else Ok(Record(name, rtype, class_, ttl, rdlength, data), q)
  }

  // ----- Printing -----

  /** The RDLENGTH computed before any RDATA is written, with the casts of the original. */
  function DeclaredLength(d: RData): Result<u16> {
    match d
    case A(_) => Success(4)
    case AAAA(_) => Success(16)
    case CNAME(name) => QNameWireLength(name)
    case MX(_, exchange) => var l: int :- QNameWireLength(exchange); Success((2 + l) % 0x1_0000)
    case NS(name) => QNameWireLength(name)
    case SOA(primary, mailbox, _, _, _, _, _) =>
      var l1: int :- QNameWireLength(primary);
      var l2: int :- QNameWireLength(mailbox);
      if l1 + l2 + 20 > 0xFFFF then Failure(LengthError) else Success(l1 + l2 + 20)
    case OPT(_, _, _, _, options) => Success(|options| % 0x1_0000)
    case Unknown(data) => Success(|data| % 0x1_0000)
  }

  function FiveWords(v1: u32, v2: u32, v3: u32, v4: u32, v5: u32): Emission {
    Plain(BytesOfU32(v1)).Then(Plain(BytesOfU32(v2))).Then(Plain(BytesOfU32(v3)))
    .Then(Plain(BytesOfU32(v4))).Then(Plain(BytesOfU32(v5)))
  }

  function Payload(d: RData): Emission {
    match d
    case A(o) => Plain(BytesOfU32(ToU32(o)))
    case AAAA(o) => Plain(o)
    case CNAME(name) => EncodeName(name)
    case MX(preference, exchange) => Plain(BytesOfU16(preference)).Then(EncodeName(exchange))
    case NS(name) => EncodeName(name)
    case SOA(primary, mailbox, serial, refresh, retry, expire, minimum) =>
      EncodeName(primary).Then(EncodeName(mailbox)).Then(FiveWords(serial, refresh, retry, expire, minimum))
    case OPT(_, _, _, _, options) => Plain(options)
    case Unknown(data) => Plain(data)
  }

  function EncodeData(d: RData): Emission {
    match DeclaredLength(d)
    case Failure(e) => Emission([], Some(e))
    case Success(l) => Plain(BytesOfU16(l)).Then(Payload(d))
  }

  function EncodeFixed(r: Record): Emission {
    Plain(BytesOfU16(r.rtype)).Then(Plain(BytesOfU16(r.class_))).Then(Plain(BytesOfU32(r.ttl)))
  }

  function EncodeRecord(r: Record): Emission {
    EncodeName(r.name).Then(EncodeFixed(r)).Then(EncodeData(r.data))
  }

  // ----- RDLENGTH -----

  /** Whenever the RDATA is printed without an error, the declared length is the number of
      payload bytes up to the 16-bit cast; so it is right exactly when that number has 16 bits. */
  lemma DeclaredLengthIsPayloadLength(d: RData)
    requires EncodeData(d).error.None?
    ensures DeclaredLength(d).Success? && Payload(d).error.None?
    ensures DeclaredLength(d).value == |Payload(d).bytes| % 0x1_0000
    ensures DeclaredLength(d).value == |Payload(d).bytes| <==> |Payload(d).bytes| < 0x1_0000
    ensures EncodeData(d).bytes == BytesOfU16(DeclaredLength(d).value) + Payload(d).bytes
  {
    hide QNameWireLength, EncodeName;
    match d
    case CNAME(name) => WireLengthIsExact(name);
    case MX(_, exchange) => WireLengthIsExact(exchange);
    case NS(name) => WireLengthIsExact(name);
    case SOA(primary, mailbox, _, _, _, _, _) => WireLengthIsExact(primary); WireLengthIsExact(mailbox);
    case _ =>
  }

  /** A record that fits a packet buffer declares exactly the RDATA bytes that follow. */
  lemma RdLengthMatchesWhenItFits(s: State, d: RData)
    requires s.Valid() && Verdict(s, EncodeData(d)).Pass?
    ensures var t := After(s, EncodeData(d));
      && s.pos + 2 <= t.pos <= t.len
      && ReadU16(t.Contents(), s.pos) == Ok(t.pos - (s.pos + 2), s.pos + 2)
  {
    DeclaredLengthIsPayloadLength(d);
    var e := EncodeData(d);
    var t := After(s, e);
    assert t.data[s.pos..s.pos + |e.bytes|] == e.bytes[..|e.bytes|] == e.bytes;
    assert At(t.Contents(), s.pos, e.bytes);
    AtSplit(t.Contents(), s.pos, BytesOfU16(DeclaredLength(d).value), Payload(d).bytes);
    ReadU16At(t.Contents(), s.pos, DeclaredLength(d).value);
  }

  // ----- What parsing guarantees, and what survives printing -----

  ghost predicate Readable(name: Name) {
    |Canon(name)| <= MAX_NAME
  }

  /** The variant is the one the type calls for, OPT's fields are those of class and TTL, and
      the names are short enough to be read back. */
  ghost predicate DataFits(d: RData, rtype: u16, class_: u16, ttl: u32) {
    match d
    case A(_) => rtype == TYPE_A
    case AAAA(_) => rtype == TYPE_AAAA
    case CNAME(name) => rtype == TYPE_CNAME && Readable(name)
    case MX(_, exchange) => rtype == TYPE_MX && Readable(exchange)
    case NS(name) => rtype == TYPE_NS && Readable(name)
    case SOA(primary, mailbox, _, _, _, _, _) => rtype == TYPE_SOA && Readable(primary) && Readable(mailbox)
    case OPT(_, _, _, _, options) => rtype == TYPE_OPT && d == OptFrom(class_, ttl, options)
    case Unknown(_) => rtype !in {TYPE_A, TYPE_AAAA, TYPE_CNAME, TYPE_MX, TYPE_NS, TYPE_SOA, TYPE_OPT}
  }

  ghost predicate WellFormed(r: Record) {
    Readable(r.name) && DataFits(r.data, r.rtype, r.class_, r.ttl)
  }

  function CanonData(d: RData): RData {
    match d
    case CNAME(name) => CNAME(Canon(name))
    case MX(preference, exchange) => MX(preference, Canon(exchange))
    case NS(name) => NS(Canon(name))
    case SOA(primary, mailbox, _, _, _, _, _) => d.(primary := Canon(primary), mailbox := Canon(mailbox))
    case _ => d
  }

  /** What a printed record reads back as: names through `Canon`, RDLENGTH recomputed. */
  function CanonRecord(r: Record): Record {
    r.(name := Canon(r.name), data := CanonData(r.data), rdlength := |Payload(r.data).bytes| % 0x1_0000)
  }

  lemma QuadDigits(o0: int, o1: int, o2: int, o3: int)
    requires 0 <= o0 < 0x100 && 0 <= o1 < 0x100 && 0 <= o2 < 0x100 && 0 <= o3 < 0x100
    ensures var ip := o0 * 0x100_0000 + o1 * 0x1_0000 + o2 * 0x100 + o3;
      ip / 0x100_0000 == o0 && ip / 0x1_0000 % 0x100 == o1 && ip / 0x100 % 0x100 == o2 && ip % 0x100 == o3
  {
    var ip := o0 * 0x100_0000 + o1 * 0x1_0000 + o2 * 0x100 + o3;
    assert ip / 0x100 == o0 * 0x1_0000 + o1 * 0x100 + o2;
    assert ip / 0x1_0000 == o0 * 0x100 + o1;
  }

  lemma OctetsRoundTrip(o: Octets4)
    ensures OctetsOf(ToU32(o)) == o
  {
    QuadDigits(o[0], o[1], o[2], o[3]);
  }

  lemma FiveWordsReadBack(b: Bytes, p: nat, v1: u32, v2: u32, v3: u32, v4: u32, v5: u32)
    requires At(b, p, FiveWords(v1, v2, v3, v4, v5).bytes)
    ensures ReadU32(b, p) == Ok(v1, p + 4) && ReadU32(b, p + 4) == Ok(v2, p + 8)
    ensures ReadU32(b, p + 8) == Ok(v3, p + 12) && ReadU32(b, p + 12) == Ok(v4, p + 16)
    ensures ReadU32(b, p + 16) == Ok(v5, p + 20)
    ensures |FiveWords(v1, v2, v3, v4, v5).bytes| == 20
  {
    var w1, w2, w3 := BytesOfU32(v1), BytesOfU32(v2), BytesOfU32(v3);
    var w4, w5 := BytesOfU32(v4), BytesOfU32(v5);
    AtSplit(b, p, w1 + w2 + w3 + w4, w5);
    AtSplit(b, p, w1 + w2 + w3, w4);
    AtSplit(b, p, w1 + w2, w3);
    AtSplit(b, p, w1, w2);
    ReadU32At(b, p, v1);
    ReadU32At(b, p + 4, v2);
    ReadU32At(b, p + 8, v3);
    ReadU32At(b, p + 12, v4);
    ReadU32At(b, p + 16, v5);
  }

  lemma PrintedSOAReadsBack(b: Bytes, p: nat, d: RData)
    requires d.SOA? && Readable(d.primary) && Readable(d.mailbox)
    requires Payload(d).error.None? && At(b, p, Payload(d).bytes)
    ensures ReadSOA(b, p) == Ok(CanonData(d), p + |Payload(d).bytes|)
  {
    hide ReadQName, ReadU32, EncodeName, Canon, At, FiveWords, ReadSOA;
    var e1, e2 := EncodeName(d.primary), EncodeName(d.mailbox);
    var p2 := p + |e1.bytes| + |e2.bytes|;
    SOAPartsAt(b, p, e1.bytes, e2.bytes, FiveWords(d.serial, d.refresh, d.retry, d.expire, d.minimum).bytes);
    PrintedNameReadsBack(b, p, d.primary);
    PrintedNameReadsBack(b, p + |e1.bytes|, d.mailbox);
    FiveWordsReadBack(b, p2, d.serial, d.refresh, d.retry, d.expire, d.minimum);
    SOAFromParts(b, p, CanonData(d), p + |e1.bytes|, p2);
  }

  lemma SOAPartsAt(b: Bytes, p: nat, u: Bytes, v: Bytes, w: Bytes)
    requires At(b, p, u + v + w)
    ensures At(b, p, u) && At(b, p + |u|, v) && At(b, p + |u| + |v|, w)
  {
    AtSplit(b, p, u + v, w);
    AtSplit(b, p, u, v);
  }

  lemma SOAFromParts(b: Bytes, p: nat, d: RData, p1: nat, p2: nat)
    requires d.SOA? && ReadQName(b, p) == Ok(d.primary, p1) && ReadQName(b, p1) == Ok(d.mailbox, p2)
    requires ReadU32(b, p2) == Ok(d.serial, p2 + 4) && ReadU32(b, p2 + 4) == Ok(d.refresh, p2 + 8)
    requires ReadU32(b, p2 + 8) == Ok(d.retry, p2 + 12) && ReadU32(b, p2 + 12) == Ok(d.expire, p2 + 16)
    requires ReadU32(b, p2 + 16) == Ok(d.minimum, p2 + 20)
    ensures ReadSOA(b, p) == Ok(d, p2 + 20)
  {
  }

  /** Printed RDATA reads back, for each of the eight variants. */
  lemma PrintedDataReadsBack(b: Bytes, p: nat, d: RData, rtype: u16, class_: u16, ttl: u32)
    requires DataFits(d, rtype, class_, ttl)
    requires Payload(d).error.None? && At(b, p, Payload(d).bytes) && |Payload(d).bytes| < 0x1_0000
    ensures ReadData(b, p, rtype, class_, ttl, |Payload(d).bytes|) == Ok(CanonData(d), p + |Payload(d).bytes|)
  {
    match d
    case A(o) => ReadU32At(b, p, ToU32(o)); OctetsRoundTrip(o);
    case AAAA(_) =>
    case CNAME(name) => PrintedNameReadsBack(b, p, name);
    case MX(preference, exchange) =>
      AtSplit(b, p, BytesOfU16(preference), EncodeName(exchange).bytes);
      ReadU16At(b, p, preference);
      PrintedNameReadsBack(b, p + 2, exchange);
    case NS(name) => PrintedNameReadsBack(b, p, name);
    case SOA(_, _, _, _, _, _, _) => PrintedSOAReadsBack(b, p, d);
    case OPT(_, _, _, _, options) => ReadBytesAt(b, p, options);
    case Unknown(data) => ReadBytesAt(b, p, data);
  }

  lemma FixedReadsBack(b: Bytes, p: nat, r: Record)
    requires At(b, p, EncodeFixed(r).bytes)
    ensures ReadU16(b, p) == Ok(r.rtype, p + 2) && ReadU16(b, p + 2) == Ok(r.class_, p + 4)
    ensures ReadU32(b, p + 4) == Ok(r.ttl, p + 8) && |EncodeFixed(r).bytes| == 8
  {
    AtSplit(b, p, BytesOfU16(r.rtype) + BytesOfU16(r.class_), BytesOfU32(r.ttl));
    AtSplit(b, p, BytesOfU16(r.rtype), BytesOfU16(r.class_));
    ReadU16At(b, p, r.rtype);
    ReadU16At(b, p + 2, r.class_);
    ReadU32At(b, p + 4, r.ttl);
  }

  lemma RecordFromParts(b: Bytes, p: nat, r: Record, p1: nat, q: nat)
    requires ReadQName(b, p) == Ok(r.name, p1)
    requires ReadU16(b, p1) == Ok(r.rtype, p1 + 2) && ReadU16(b, p1 + 2) == Ok(r.class_, p1 + 4)
    requires ReadU32(b, p1 + 4) == Ok(r.ttl, p1 + 8) && ReadU16(b, p1 + 8) == Ok(r.rdlength, p1 + 10)
    requires ReadData(b, p1 + 10, r.rtype, r.class_, r.ttl, r.rdlength) == Ok(r.data, q)
    requires q == p1 + 10 + r.rdlength <= |b|
    ensures ReadRecord(b, p) == Ok(r, q)
  {
  }

  lemma RecordPartsAt(b: Bytes, p: nat, r: Record)
    requires EncodeRecord(r).error.None? && At(b, p, EncodeRecord(r).bytes)
    ensures EncodeName(r.name).error.None? && EncodeData(r.data).error.None?
    ensures var e1, e2, e3 := EncodeName(r.name), EncodeFixed(r), EncodeData(r.data);
      && EncodeRecord(r).bytes == e1.bytes + e2.bytes + e3.bytes && |e2.bytes| == 8
      && At(b, p, e1.bytes) && At(b, p + |e1.bytes|, e2.bytes) && At(b, p + |e1.bytes| + 8, e3.bytes)
  {
    hide EncodeName, EncodeData, At;
    SOAPartsAt(b, p, EncodeName(r.name).bytes, EncodeFixed(r).bytes, EncodeData(r.data).bytes);
  }

  /** A printed record reads back, up to `CanonRecord`, wherever it stands. */
  lemma PrintedRecordReadsBack(b: Bytes, p: nat, r: Record)
    requires WellFormed(r) && EncodeRecord(r).error.None?
    requires At(b, p, EncodeRecord(r).bytes) && |EncodeRecord(r).bytes| < 0x1_0000
    ensures ReadRecord(b, p) == Ok(CanonRecord(r), p + |EncodeRecord(r).bytes|)
  {
    hide ReadQName, ReadU16, ReadU32, ReadData, ReadRecord, EncodeName, EncodeFixed, EncodeData, Payload,
      EncodeRecord, DataFits, CanonData, Canon, At;
    RecordPartsAt(b, p, r);
    PrintedNameReadsBack(b, p, r.name);
    var q := p + |EncodeName(r.name).bytes|;
    FixedReadsBack(b, q, r);
    DeclaredLengthIsPayloadLength(r.data);
    var w := Payload(r.data).bytes;
    AtSplit(b, q + 8, BytesOfU16(|w|), w);
    ReadU16At(b, q + 8, |w|);
    PrintedDataReadsBack(b, q + 10, r.data, r.rtype, r.class_, r.ttl);
    AtFits(b, q + 10, w);
    RecordFromParts(b, p, CanonRecord(r), q, q + 10 + |w|);
  }

  lemma AtFits(b: Bytes, p: nat, w: Bytes)
    requires At(b, p, w)
    ensures p + |w| <= |b|
  {
  }

  lemma CanonShortens(name: Name)
    requires 0 < |name| <= MAX_NAME
    ensures Readable(name)
  {
  }

  lemma ParsedNameFits(b: Bytes, p: nat)
    requires p <= |b| && ReadQName(b, p).Ok?
    ensures Readable(ReadQName(b, p).value) && p < ReadQName(b, p).next <= |b|
  {
    ReadQNameCursor(b, p);
    CanonShortens(ReadQName(b, p).value);
  }

  lemma ParsedSOAFits(b: Bytes, p: nat)
    requires p <= |b| && ReadSOA(b, p).Ok?
    ensures var d := ReadSOA(b, p).value; d.SOA? && Readable(d.primary) && Readable(d.mailbox)
    ensures p <= ReadSOA(b, p).next <= |b|
  {
    hide ReadQName, Canon, ReadU32;
    ParsedNameFits(b, p);
    ParsedNameFits(b, ReadQName(b, p).next);
    FiveWordsAdvance(b, ReadQName(b, ReadQName(b, p).next).next);
  }

  lemma FiveWordsAdvance(b: Bytes, p: nat)
    ensures ReadU32(b, p).Ok? ==> ReadU32(b, p).next == p + 4 <= |b|
    ensures ReadU32(b, p + 4).Ok? ==> ReadU32(b, p + 4).next == p + 8 <= |b|
    ensures ReadU32(b, p + 8).Ok? ==> ReadU32(b, p + 8).next == p + 12 <= |b|
    ensures ReadU32(b, p + 12).Ok? ==> ReadU32(b, p + 12).next == p + 16 <= |b|
    ensures ReadU32(b, p + 16).Ok? ==> ReadU32(b, p + 16).next == p + 20 <= |b|
  {
  }

  lemma ParsedDataFits(b: Bytes, p: nat, rtype: u16, class_: u16, ttl: u32, rdlength: u16)
    requires p <= |b| && ReadData(b, p, rtype, class_, ttl, rdlength).Ok?
    ensures DataFits(ReadData(b, p, rtype, class_, ttl, rdlength).value, rtype, class_, ttl)
    ensures p <= ReadData(b, p, rtype, class_, ttl, rdlength).next <= |b|
  {
    if rtype == TYPE_MX {
      ParsedNameFits(b, p + 2);
    } else if rtype == TYPE_SOA {
      ParsedSOAFits(b, p);
    } else if rtype == TYPE_CNAME || rtype == TYPE_NS {
      ParsedNameFits(b, p);
    }
  }

  /** The fields of a record the parser accepts, and where each was read. */
  ghost predicate RecordParts(b: Bytes, p: nat, r: Record, p1: nat, q: nat) {
    && ReadQName(b, p) == Ok(r.name, p1)
    && ReadData(b, p1 + 10, r.rtype, r.class_, r.ttl, r.rdlength) == Ok(r.data, q)
    && q == p1 + 10 + r.rdlength
  }

  lemma RecordHasParts(b: Bytes, p: nat)
    requires ReadRecord(b, p).Ok?
    ensures RecordParts(b, p, ReadRecord(b, p).value, ReadQName(b, p).next, ReadRecord(b, p).next)
  {
    var p1 := ReadQName(b, p).next;
    assert ReadU16(b, p1).next == p1 + 2;
    assert ReadU16(b, p1 + 2).next == p1 + 4;
    assert ReadU32(b, p1 + 4).next == p1 + 8;
    assert ReadU16(b, p1 + 8).next == p1 + 10;
  }

  lemma PartsFit(b: Bytes, p: nat, r: Record, p1: nat, q: nat)
    requires p <= |b| && RecordParts(b, p, r, p1, q) && p1 + 10 <= |b|
    ensures WellFormed(r) && p + 11 <= q <= |b|
  {
    hide ReadData, ReadQName, DataFits, Canon;
    ParsedNameFits(b, p);
    ParsedDataFits(b, p1 + 10, r.rtype, r.class_, r.ttl, r.rdlength);
  }

  lemma RecordHasFixedPart(b: Bytes, p: nat)
    requires ReadRecord(b, p).Ok?
    ensures ReadQName(b, p).Ok? && ReadQName(b, p).next + 10 <= |b|
  {
  }

  /** Every record the parser accepts is well formed, declares the RDATA it read, and took at
      least eleven bytes. */
  lemma ParsedRecordIsWellFormed(b: Bytes, p: nat, r: Record, q: nat)
    requires p <= |b| && ReadRecord(b, p) == Ok(r, q)
    ensures WellFormed(r) && p + 11 <= q <= |b|
  {
    RecordHasParts(b, p);
    RecordHasFixedPart(b, p);
    PartsFit(b, p, r, ReadQName(b, p).next, q);
  }

  // ----- The methods -----

  method ReadSOAData(buffer: BytePacketBuffer) returns (r: Result<RData>)
    requires buffer.Valid()
    modifies buffer`pos
    ensures buffer.Valid() && buffer.pos == ReadSOA(buffer.Contents(), old(buffer.pos)).next
    ensures r == ReadSOA(buffer.Contents(), old(buffer.pos)).ToResult()
  {
    var primary :- buffer.ReadQName();
    var mailbox :- buffer.ReadQName();
    var serial :- buffer.ReadU32();
    var refresh :- buffer.ReadU32();
    var retry :- buffer.ReadU32();
    var expire :- buffer.ReadU32();
    var minimum :- buffer.ReadU32();
    r := Success(SOA(primary, mailbox, serial, refresh, retry, expire, minimum));
  }

  method ReadAAAAData(buffer: BytePacketBuffer) returns (r: Result<RData>)
    requires buffer.Valid()
    modifies buffer`pos
    ensures buffer.Valid() && buffer.pos == ReadAAAA(buffer.Contents(), old(buffer.pos)).next
    ensures r == ReadAAAA(buffer.Contents(), old(buffer.pos)).ToResult()
  {
    var octets: Bytes := [];
    for i := 0 to 16
      invariant buffer.Valid() && buffer.pos == old(buffer.pos) + i
      invariant octets == buffer.Contents()[old(buffer.pos)..buffer.pos]
    {
      var octet :- buffer.ReadU8();
      octets := octets + [octet];
    }
    r := Success(AAAA(octets));
  }

  method ReadRData(buffer: BytePacketBuffer, rtype: u16, class_: u16, ttl: u32, rdlength: u16)
    returns (r: Result<RData>)
    requires buffer.Valid()
    modifies buffer`pos
    ensures buffer.Valid()
    ensures buffer.pos == ReadData(buffer.Contents(), old(buffer.pos), rtype, class_, ttl, rdlength).next
    ensures r == ReadData(buffer.Contents(), old(buffer.pos), rtype, class_, ttl, rdlength).ToResult()
  {
    if rtype == TYPE_A {
      if rdlength != 4 { return Failure(RuntimeError); }
      var ip :- buffer.ReadU32();
      r := Success(A(OctetsOf(ip)));
    } else if rtype == TYPE_AAAA {
      if rdlength != 16 { return Failure(RuntimeError); }
      r := ReadAAAAData(buffer);
    } else if rtype == TYPE_CNAME {
      var name :- buffer.ReadQName();
      r := Success(CNAME(name));
    } else if rtype == TYPE_MX {
      var preference :- buffer.ReadU16();
      var exchange :- buffer.ReadQName();
      r := Success(MX(preference, exchange));
    } else if rtype == TYPE_NS {
      var name :- buffer.ReadQName();
      r := Success(NS(name));
    } else if rtype == TYPE_SOA {
      r := ReadSOAData(buffer);
    } else {
      var bytes :- buffer.ReadBytes(rdlength);
      r := Success(if rtype == TYPE_OPT then OptFrom(class_, ttl, bytes) else Unknown(bytes));
    }
  }

  method Read(buffer: BytePacketBuffer) returns (r: Result<Record>)
    requires buffer.Valid()
    modifies buffer`pos
    ensures buffer.Valid() && buffer.pos == ReadRecord(buffer.Contents(), old(buffer.pos)).next
    ensures r == ReadRecord(buffer.Contents(), old(buffer.pos)).ToResult()
  {
    var name :- buffer.ReadQName();
    var rtype :- buffer.ReadU16();
    var class_ :- buffer.ReadU16();
    var ttl :- buffer.ReadU32();
    var rdlength :- buffer.ReadU16();
    if rdlength > buffer.Remaining() { return Failure(OutOfRange); }
    var start := buffer.pos;
    var data :- ReadRData(buffer, rtype, class_, ttl, rdlength);
    if buffer.pos - start != rdlength { return Failure(RuntimeError); }
    r := Success(Record(name, rtype, class_, ttl, rdlength, data));
  }

  method WritePayload(d: RData, buffer: BytePacketBuffer) returns (r: Outcome)
    requires buffer.Valid()
    modifies buffer`pos, buffer`len, buffer.buff
    ensures buffer.Valid() && buffer.Now() == After(old(buffer.Now()), Payload(d))
    ensures r == Verdict(old(buffer.Now()), Payload(d))
  {
    hide After, Verdict, EncodeName;
    match d
    case A(o) => r := buffer.WriteU32(ToU32(o));
    case AAAA(o) => r := buffer.WriteBytes(o);
    case CNAME(name) => r := buffer.WriteQName(name);
    case MX(_, _) => r := WriteMX(d, buffer);
    case NS(name) => r := buffer.WriteQName(name);
    case SOA(_, _, _, _, _, _, _) => r := WriteSOA(d, buffer);
    case OPT(_, _, _, _, options) => r := buffer.WriteBytes(options);
    case Unknown(data) => r := buffer.WriteBytes(data);
  }

  method WriteMX(d: RData, buffer: BytePacketBuffer) returns (r: Outcome)
    requires buffer.Valid() && d.MX?
    modifies buffer`pos, buffer`len, buffer.buff
    ensures buffer.Valid() && buffer.Now() == After(old(buffer.Now()), Payload(d))
    ensures r == Verdict(old(buffer.Now()), Payload(d))
  {
    hide After, Verdict, EncodeName;
    PrintInSequence(buffer.Now(), Plain(BytesOfU16(d.preference)), EncodeName(d.exchange));
    :- buffer.WriteU16(d.preference);
    r := buffer.WriteQName(d.exchange);
  }

  method WriteSOA(d: RData, buffer: BytePacketBuffer) returns (r: Outcome)
    requires buffer.Valid() && d.SOA?
    modifies buffer`pos, buffer`len, buffer.buff
    ensures buffer.Valid() && buffer.Now() == After(old(buffer.Now()), Payload(d))
    ensures r == Verdict(old(buffer.Now()), Payload(d))
  {
    hide After, Verdict, EncodeName, FiveWords;
    ghost var s := buffer.Now();
    ghost var e1, e2 := EncodeName(d.primary), EncodeName(d.mailbox);
    PrintInSequence(s, e1, e2);
    PrintInSequence(s, e1.Then(e2), FiveWords(d.serial, d.refresh, d.retry, d.expire, d.minimum));
    :- buffer.WriteQName(d.primary);
    :- buffer.WriteQName(d.mailbox);
    r := WriteFiveWords(buffer, d.serial, d.refresh, d.retry, d.expire, d.minimum);
  }

  method WriteFiveWords(buffer: BytePacketBuffer, v1: u32, v2: u32, v3: u32, v4: u32, v5: u32)
    returns (r: Outcome)
    requires buffer.Valid()
    modifies buffer`pos, buffer`len, buffer.buff
    ensures buffer.Valid() && buffer.Now() == After(old(buffer.Now()), FiveWords(v1, v2, v3, v4, v5))
    ensures r == Verdict(old(buffer.Now()), FiveWords(v1, v2, v3, v4, v5))
  {
    ghost var s := buffer.Now();
    ghost var e1, e2, e3 := Plain(BytesOfU32(v1)), Plain(BytesOfU32(v2)), Plain(BytesOfU32(v3));
    ghost var e4, e5 := Plain(BytesOfU32(v4)), Plain(BytesOfU32(v5));
    PrintInSequence(s, e1, e2);
    PrintInSequence(s, e1.Then(e2), e3);
    PrintInSequence(s, e1.Then(e2).Then(e3), e4);
    PrintInSequence(s, e1.Then(e2).Then(e3).Then(e4), e5);
    :- buffer.WriteU32(v1);
    :- buffer.WriteU32(v2);
    :- buffer.WriteU32(v3);
    :- buffer.WriteU32(v4);
    r := buffer.WriteU32(v5);
  }

  method WriteData(d: RData, buffer: BytePacketBuffer) returns (r: Outcome)
    requires buffer.Valid()
    modifies buffer`pos, buffer`len, buffer.buff
    ensures buffer.Valid() && buffer.Now() == After(old(buffer.Now()), EncodeData(d))
    ensures r == Verdict(old(buffer.Now()), EncodeData(d))
    ensures r.Pass? ==>
      (var start := old(buffer.pos) + 2;
       start <= buffer.pos && Wire.ReadU16(buffer.Contents(), start - 2) == Ok(buffer.pos - start, start))
  {
    hide After, Verdict, Payload, DeclaredLength;
    ghost var s := buffer.Now();
    var length := DeclaredLength(d);
    if length.Failure? {
      PrintNothing(s, Some(length.error));
      return Raise(length.error);
    }
    if Verdict(s, EncodeData(d)).Pass? {
      RdLengthMatchesWhenItFits(s, d);
    }
    PrintInSequence(s, Plain(BytesOfU16(length.value)), Payload(d));
    :- buffer.WriteU16(length.value);
    r := WritePayload(d, buffer);
  }

  method Write(record: Record, buffer: BytePacketBuffer) returns (r: Outcome)
    requires buffer.Valid()
    modifies buffer`pos, buffer`len, buffer.buff
    ensures buffer.Valid() && buffer.Now() == After(old(buffer.Now()), EncodeRecord(record))
    ensures r == Verdict(old(buffer.Now()), EncodeRecord(record))
  {
    ghost var s := buffer.Now();
    ghost var e1, e2 := EncodeName(record.name), EncodeFixed(record);
    PrintInSequence(s, e1, e2);
    PrintInSequence(s, e1.Then(e2), EncodeData(record.data));
    :- buffer.WriteQName(record.name);
    :- WriteFixed(record, buffer);
    r := WriteData(record.data, buffer);
  }

  method WriteFixed(record: Record, buffer: BytePacketBuffer) returns (r: Outcome)
    requires buffer.Valid()
    modifies buffer`pos, buffer`len, buffer.buff
    ensures buffer.Valid() && buffer.Now() == After(old(buffer.Now()), EncodeFixed(record))
    ensures r == Verdict(old(buffer.Now()), EncodeFixed(record))
  {
    ghost var s := buffer.Now();
    ghost var e1, e2 := Plain(BytesOfU16(record.rtype)), Plain(BytesOfU16(record.class_));
    PrintInSequence(s, e1, e2);
    PrintInSequence(s, e1.Then(e2), Plain(BytesOfU32(record.ttl)));
    :- buffer.WriteU16(record.rtype);
    :- buffer.WriteU16(record.class_);
    r := buffer.WriteU32(record.ttl);
  }
}
