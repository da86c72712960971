/**
 Concrete lookups: that what `Frames` proves is about something.  Every response in them is a
 packet printed and parsed again, so it is one that an upstream server can send.
 */
module Scenarios {
  import opened Wire
  import opened Names
  import opened Headers
  import opened Records
  import opened Packets
  import opened Upstream
  import opened Cache
  import opened Frames
  import opened Resolver
  import RootServers

  // ----- Replies -----

  /** A packet that can answer the query: it prints, and it is a response with the query's ID. */
  ghost predicate CanAnswer(p: Packet, query: Packet) {
    && query.question.Some? && CanPrint(Request(query))
    && PacketWellFormed(p) && CanPrint(p) && p.header.IsResponse() && p.header.id == query.header.id
  }

  lemma PrintedReplyArrives(p: Packet, query: Packet) returns (e: Exchange)
    requires CanAnswer(p, query)
    ensures ResponseTo(query, e) == Some(CanonPacket(p))
    ensures CanonPacket(p).header.IsResponse() && CanonPacket(p).header.GetResultCode() == p.header.GetResultCode()
  {
    hide ReadPacket, EncodePacket, PacketWellFormed, Request;
    var w := EncodePacket(p).bytes;
    e := Reply(w, 0);
    assert w[0..|w|] == w;
    PrintedPacketReadsBack(w, 0, p);
  }

  /** One root server, and one attempt at it that brings the packet. */
  lemma OneAttempt(p: Packet, query: Packet, server: RootServers.RootServer) returns (log: seq<RootServers.Attempt>)
    requires CanAnswer(p, query) && server.status.UNKNOWN?
    ensures RootServers.RootsAsked(query, [server], log, CanonPacket(p))
  {
    hide ReadPacket, CanPrint, CanonPacket, CanAnswer;
    var e := PrintedReplyArrives(p, query);
    log := [RootServers.Attempt([], [server], 1, RootServers.SIZE_MAX, 0, [], e)];
    assert RootServers.SelectedCategory([server], 1) == RootServers.UNTESTED by { assert [server][0].status.UNKNOWN?; }
    assert RootServers.TriedBefore(log, 0) == [];
    assert RootServers.StepsOf(query, log, 0) + [] == [] && RootServers.Run([server], []) == [server];
  }

  // ----- Packets that print -----

  lemma LetterPrints(c: byte)
    requires c != DOT
    ensures EncodeName([c]) == Plain([1, c, 0]) && Canon([c]) == [c]
  {
    EncodeLabelsOnce([c], []);
  }

  lemma NoRecordsPrint()
    ensures EncodeRecords([]) == Plain([]) && CanonRecords([]) == []
  {
  }

  lemma OneRecordPrints(r: Record)
    requires EncodeRecord(r).error.None?
    ensures EncodeRecords([r]) == EncodeRecord(r) && CanonRecords([r]) == [CanonRecord(r)]
  {
    hide EncodeRecord, CanonRecord;
    NoRecordsPrint();
    assert [r][1..] == [];
  }

  /** A record with a one-letter owner and little data. */
  lemma SmallRecordPrints(r: Record, c: byte)
    requires r.name == [c] && c != DOT && Payload(r.data).error.None? && |Payload(r.data).bytes| <= 20
    requires DeclaredLength(r.data).Success?
    ensures EncodeRecord(r).error.None? && |EncodeRecord(r).bytes| <= 40 && Readable(r.name)
    ensures CanonRecord(r) == r.(data := CanonData(r.data), rdlength := |Payload(r.data).bytes|)
  {
    hide Payload, DeclaredLength, CanonData;
    LetterPrints(c);
  }

  /** A response without question, and with at most one record in each section. */
  lemma SmallPacketPrints(p: Packet)
    requires p.question.None? && |p.answers| <= 1 && |p.authorities| <= 1 && |p.additionals| <= 1
    requires forall r :: r in p.answers + p.authorities + p.additionals ==>
      EncodeRecord(r).error.None? && |EncodeRecord(r).bytes| <= 40
    ensures CanPrint(p)
  {
    hide EncodeRecord, EncodeRecords, EncodeHeader;
    HeaderIsSixWords(p.Synced().header);
    SectionPrints(p.answers);
    SectionPrints(p.authorities);
    SectionPrints(p.additionals);
  }

  lemma SectionPrints(rs: seq<Record>)
    requires |rs| <= 1 && forall r :: r in rs ==> EncodeRecord(r).error.None? && |EncodeRecord(r).bytes| <= 40
    ensures EncodeRecords(rs).error.None? && |EncodeRecords(rs).bytes| <= 40
  {
    hide EncodeRecord, EncodeRecords;
    NoRecordsPrint();
    if rs != [] {
      assert rs == [rs[0]];
      OneRecordPrints(rs[0]);
    }
  }

  // ----- A lookup that stores, and one that the cache answers -----

  /** The bare response of a server that has no data. */
  function NoData(id: u16): Packet {
    EMPTY_PACKET.(header := BLANK.(id := id).SetResponse(true))
  }

  /** For every question that can be asked there is a lookup that finds no data and stores that,
      and a second one that the cache answers: what the lemmas are about does happen. */
  lemma LookupsExist(query: Packet, server: RootServers.RootServer) returns (f: Frame, g: Frame, e: Entry)
    requires query.question.Some? && CanPrint(Request(query)) && server.status.UNKNOWN?
    ensures ValidFrame(f) && f.query == query && f.ending.NoReferral? && Stores(f, e)
    ensures ValidFrame(g) && g.query == query && g.ending.CacheHit? && g.before == f.after && g.checkedAt < e.expiration
  {
    hide RootServers.RootsAsked, CanPrint, ValidFrame, InProgress, CanAnswer;
    var p := CanonPacket(NoData(query.header.id));
    var log := NoDataArrives(query, server);
    var s := Step(EMPTY_STORE, Get(KeyOf(query)), 0);
    var f0 := Frame(query, EMPTY_STORE, 0, [server], log, p, [], p, [], OutOfFuel, 0, 0, p, EMPTY_STORE);
    Begins(f0, s);
    e := NegativeEntry(NODATA, 60, 0);
    f := f0.(ending := NoReferral, response := Finalized(p, query),
             after := Step(s, PutNegative(KeyOf(query), NODATA, 60, 0), 0));
    Ends(f0, s, f);
    g := f0.(before := f.after, ending := CacheHit, response := CachedResponse(query, e));
    g := g.(after := Opening(g));
    CacheHitEnding(g, e);
  }

  lemma NoDataArrives(query: Packet, server: RootServers.RootServer) returns (log: seq<RootServers.Attempt>)
    requires query.question.Some? && CanPrint(Request(query)) && server.status.UNKNOWN?
    ensures var p := CanonPacket(NoData(query.header.id));
      && RootServers.RootsAsked(query, [server], log, p) && p.header.IsResponse() && p.header.GetResultCode() == NOERROR
      && p.answers == p.authorities == p.additionals == []
  {
    hide RootServers.RootsAsked, CanPrint, EncodeRecord;
    SmallPacketPrints(NoData(query.header.id));
    log := OneAttempt(NoData(query.header.id), query, server);
    NoRecordsPrint();
  }

  // ----- Lookups that follow an alias -----

  const ALIAS: Name := [97]
  const TARGET: Name := [98]
  const SERVER: Name := [110]

  /** a CNAME b */
  const ALIAS_RECORD: Record := Record(ALIAS, TYPE_CNAME, 1, 60, 3, CNAME(TARGET))

  /** a NS n */
  const NS_RECORD: Record := Record(ALIAS, TYPE_NS, 1, 60, 3, NS(SERVER))

  /** n A 192.0.2.1 */
  const GLUE_RECORD: Record := Record(SERVER, TYPE_A, 1, 60, 4, A([192, 0, 2, 1]))

  /** b A 192.0.2.2 */
  const ADDRESS_RECORD: Record := Record(TARGET, TYPE_A, 1, 60, 4, A([192, 0, 2, 2]))

  /** A record of b of some other type. */
  function TextRecord(ttl: u32): Record {
    Record(TARGET, 16, 1, ttl, 0, Unknown([]))
  }

  function Asking(name: Name): Packet {
    EMPTY_PACKET.(question := Some(Question(name, TYPE_A, 1)))
  }

  const TARGET_KEY: Key := CacheKey(TARGET, TYPE_A)

  lemma LetterCanBeAsked(c: byte)
    requires c != DOT
    ensures CanPrint(Request(Asking([c])))
  {
    hide EncodeHeader;
    var p := Request(Asking([c]));
    var opt := OptRecord(1232, 0, 0, false);
    LetterPrints(c);
    HeaderIsSixWords(p.Synced().header);
    NoRecordsPrint();
    assert p.additionals == [opt];
    assert EncodeRecord(opt).error.None? && |EncodeRecord(opt).bytes| == 11;
    OneRecordPrints(opt);
  }

  /** The records print, and come back as they are. */
  lemma RecordsPrint(ttl: u32)
    ensures forall r :: r in {ALIAS_RECORD, NS_RECORD, GLUE_RECORD, ADDRESS_RECORD, TextRecord(ttl)} ==>
      EncodeRecord(r).error.None? && |EncodeRecord(r).bytes| <= 40 && WellFormed(r) && CanonRecord(r) == r
  {
    hide EncodeRecord, EncodeName, CanonRecord, Canon;
    LetterPrints(97);
    LetterPrints(98);
    LetterPrints(110);
    SmallRecordPrints(ALIAS_RECORD, 97);
    SmallRecordPrints(NS_RECORD, 97);
    SmallRecordPrints(GLUE_RECORD, 110);
    SmallRecordPrints(ADDRESS_RECORD, 98);
    SmallRecordPrints(TextRecord(ttl), 98);
  }

  /** A response without question, and with these sections. */
  function Reporting(answers: seq<Record>, authorities: seq<Record>, additionals: seq<Record>): Packet {
    NoData(0).(answers := answers, authorities := authorities, additionals := additionals)
  }

  ghost predicate SmallSection(rs: seq<Record>) {
    |rs| <= 1 && forall r :: r in rs ==>
      EncodeRecord(r).error.None? && |EncodeRecord(r).bytes| <= 40 && WellFormed(r) && CanonRecord(r) == r
  }

  lemma ReportingAnswers(answers: seq<Record>, authorities: seq<Record>, additionals: seq<Record>, query: Packet)
    requires SmallSection(answers) && SmallSection(authorities) && SmallSection(additionals)
    requires query.question.Some? && CanPrint(Request(query)) && query.header.id == 0
    ensures var p := Reporting(answers, authorities, additionals);
      && CanAnswer(p, query) && CanonPacket(p) == p.(header := CanonPacket(p).header)
      && CanonPacket(p).header.IsResponse() && CanonPacket(p).header.GetResultCode() == NOERROR
  {
    hide EncodeRecord, CanonRecord, WellFormed, CanPrint, Request;
    SmallPacketPrints(Reporting(answers, authorities, additionals));
  }

  /** A lookup of b that the roots answer with the record, which has no alias to follow. */
  lemma DirectAnswer(r: Record, s: Store, at: nat, server: RootServers.RootServer) returns (h: Frame)
    requires SmallSection([r]) && r.rtype != TYPE_CNAME && server.status.UNKNOWN?
    requires FindAt(s.entries, TARGET_KEY, at).None?
    ensures ValidFrame(h) && h.before == s && h.checkedAt == at && AsksFor(h, TARGET, TYPE_A)
    ensures h.response.answers == [r] && h.ending.Answered? && Stores(h, RecordsEntry([r], 60, at))
  {
    hide RootServers.RootsAsked, CanPrint, ValidFrame, CanAnswer, InProgress;
    var query := Asking(TARGET);
    LetterCanBeAsked(98);
    assert SmallSection([]);
    ReportingAnswers([r], [], [], query);
    var log := OneAttempt(Reporting([r], [], []), query, server);
    var p := CanonPacket(Reporting([r], [], []));
    var f := Frame(query, s, at, [server], log, p, [], p, [], OutOfFuel, at, at, p, s);
    Begins(f, Opening(f));
    NestedNone(Opening(f));
    h := f.(ending := Answered, response := Finalized(p.(answers := [r]), query),
            after := Step(Opening(f), PutRecords(KeyOf(query), [r], 60, at), at));
    assert AliasTarget([r]) == [];
    assert h == h.(nested := f.nested + []);
    EndsAnswered(f, Opening(f), [], Opening(f), h);
    MinTtlIsLeast(60, [r]);
  }

  /** A lookup of b that the cache answers. */
  lemma CachedAnswer(s: Store, at: nat, e: Entry) returns (h: Frame)
    requires FindAt(s.entries, TARGET_KEY, at) == Some(e) && e.result == POSITIVE
    ensures ValidFrame(h) && h.before == s && h.checkedAt == at && AsksFor(h, TARGET, TYPE_A) && h.ending.CacheHit?
    ensures h.response.answers == e.records && h.after.entries == s.entries
  {
    var query := Asking(TARGET);
    h := Frame(query, s, at, [], [], EMPTY_PACKET, [], EMPTY_PACKET, [], CacheHit, 0, 0, CachedResponse(query, e), s);
    h := h.(after := Opening(h));
  }

  /** The empty cache after a miss. */
  const MISSED: Store := Store(map[], 0, 1)

  /** Hops that look b up, from the cache as the alias's lookup found it; all of them found something. */
  ghost predicate HopsSoFar(hops: seq<Frame>, t: Store) {
    && Nested(MISSED, hops, t)
    && Hops([ALIAS_RECORD], TYPE_A, hops) && forall n :: 0 <= n < |hops| ==> hops[n].response.answers != []
  }

  lemma NoHopYet()
    ensures HopsSoFar([], MISSED)
  {
  }

  lemma AliasIsFound()
    ensures AliasTarget([ALIAS_RECORD]) == TARGET
  {
  }

  lemma OneMoreHop(hops: seq<Frame>, h: Frame)
    requires HopsSoFar(hops, h.before) && |hops| < MAX_CNAME_HOPS && ValidFrame(h) && AsksFor(h, TARGET, TYPE_A)
    requires h.response.answers != [] && !HasType(AnswersAfter([ALIAS_RECORD], hops, |hops|), TYPE_A)
    ensures HopsSoFar(hops + [h], h.after)
    ensures AnswersAfter([ALIAS_RECORD], hops + [h], |hops| + 1)
      == AnswersAfter([ALIAS_RECORD], hops, |hops|) + h.response.answers
  {
    hide ValidFrame, HasType, AnswersAfter, AliasTarget, Hops, Nested;
    NestedOne(h);
    NestedJoin(MISSED, hops, h.before, [h], h.after);
    assert AliasTarget([ALIAS_RECORD]) == TARGET by { AliasIsFound(); }
    TargetStays([ALIAS_RECORD], hops, |hops|);
    HopAppended([ALIAS_RECORD], TYPE_A, hops, h);
  }

  lemma GlueIsFound(response: Packet)
    requires response.authorities == [NS_RECORD] && response.additionals == [GLUE_RECORD]
    ensures HasGlue(response) && Collected(GluePlaces(response), [V4([192, 0, 2, 1])])
  {
    assert response.authorities[..0] == [];
    assert NsNames(response.authorities) == [SERVER];
    var a := V4([192, 0, 2, 1]);
    assert Mentions(GluePlaces(response), 0, 0, a);
    forall b
      ensures b in [a] <==> exists j: nat, i: nat :: Mentions(GluePlaces(response), j, i, b)
    {
      if b == a {
        assert Mentions(GluePlaces(response), 0, 0, b);
      }
    }
    GlueIsMentioned(response, a);
  }

  /** What the roots and the server n send when they are asked for a: a referral to n, and the alias. */
  lemma ReferralArrives(server: RootServers.RootServer)
    returns (log: seq<RootServers.Attempt>, first: Packet, e: Exchange, last: Packet)
    requires server.status.UNKNOWN?
    ensures RootServers.RootsAsked(Asking(ALIAS), [server], log, first) && IsReferral(first)
    ensures first.authorities == [NS_RECORD] && first.additionals == [GLUE_RECORD]
    ensures last == ReplyOf(Asking(ALIAS), e) && last.header.IsResponse() && last.answers == [ALIAS_RECORD]
  {
    hide RootServers.RootsAsked, CanPrint, CanAnswer, EncodeRecord, CanonRecord, WellFormed, ResponseTo;
    var query := Asking(ALIAS);
    LetterCanBeAsked(97);
    RecordsPrint(60);
    ReportingAnswers([], [NS_RECORD], [GLUE_RECORD], query);
    ReportingAnswers([ALIAS_RECORD], [], [], query);
    log := OneAttempt(Reporting([], [NS_RECORD], [GLUE_RECORD]), query, server);
    e := PrintedReplyArrives(Reporting([ALIAS_RECORD], [], []), query);
    first := CanonPacket(Reporting([], [NS_RECORD], [GLUE_RECORD]));
    last := CanonPacket(Reporting([ALIAS_RECORD], [], []));
  }

  lemma OnlyGlueQueried(response: Packet, a: Address, e: Exchange, reply: Packet, query: Packet, r: Round)
    requires IsReferral(response) && reply == ReplyOf(query, e)
    requires HasGlue(response) && Collected(GluePlaces(response), [a])
    requires r == Round(response, 0, 0, [a], [a], [Contact(a, e)], [reply])
    ensures IsReferral(r.response) && NoDuplicates(r.candidates) && CandidatesFrom(r.response, [], r.candidates)
    ensures r.queried <= FreshOnes(r.candidates, []) && Replies(query, r)
  {
    hide HasGlue, Collected, IsReferral, ReplyOf;
    assert FreshOnes([a], []) == [a] by { assert [a][..0] == []; }
  }

  /** A lookup of a under way: the roots referred to the server n, which was queried and answered
      with the alias. */
  lemma Referred(server: RootServers.RootServer) returns (f: Frame)
    requires server.status.UNKNOWN?
    ensures f.query == Asking(ALIAS) && f.before == EMPTY_STORE && f.checkedAt == 0 && f.nested == []
    ensures |f.rounds| == 1 && f.rounds[0].queried == [V4([192, 0, 2, 1])] && f.rounds[0].end == 0
    ensures f.last.header.IsResponse() && f.last.answers == [ALIAS_RECORD] && InProgress(f, MISSED)
  {
    hide RootServers.RootsAsked, InProgress, Nested, HasGlue, Collected, ReplyOf, CandidatesFrom, Replies, IsReferral, NsNames,
      FreshOnes, ValidRound, ALIAS_RECORD, NS_RECORD, GLUE_RECORD;
    var a := V4([192, 0, 2, 1]);
    var log, first, e, last := ReferralArrives(server);
    var f0 := Frame(Asking(ALIAS), EMPTY_STORE, 0, [server], log, first, [], first, [], OutOfFuel, 0, 0, first, EMPTY_STORE);
    Begins(f0, MISSED);
    NestedNone(MISSED);
    var r := Round(first, 0, 0, [a], [a], [Contact(a, e)], [last]);
    GlueIsFound(first);
    OnlyGlueQueried(first, a, e, last, f0.query, r);
    RoundIsValid(f0, [], r);
    f := f0.(nested := f0.nested + [], rounds := f0.rounds + [r], last := last);
    GoesOn(f0, MISSED, [], MISSED, r, f);
  }

  /** A lookup of a: the referral, the alias, and then the given hops. */
  lemma AliasLookup(hops: seq<Frame>, t: Store, made: nat, server: RootServers.RootServer) returns (f: Frame)
    requires HopsSoFar(hops, t) && HopsStop([ALIAS_RECORD], TYPE_A, hops) && server.status.UNKNOWN?
    ensures |f.rounds| == 1 && f.rounds[0].queried == [V4([192, 0, 2, 1])]
    ensures f.ending.Answered? && AsksFor(f, ALIAS, TYPE_A) && f.before == EMPTY_STORE
    ensures f.last.answers == [ALIAS_RECORD] && HopsOf(f) == hops && ValidFrame(f)
  {
    hide ValidFrame, InProgress, Nested, HopsStop, Hops, Finalized, AnswersAfter;
    var f1 := Referred(server);
    var all := AnswersAfter([ALIAS_RECORD], hops, |hops|);
    f := f1.(nested := f1.nested + hops, ending := Answered, made := made, storedAt := made,
             response := Finalized(f1.last.(answers := all), f1.query),
             after := Step(t, PutRecords(KeyOf(f1.query), all, 60, made), made));
    EndsAnswered(f1, MISSED, hops, t, f);
  }

  /** A first hop that finds something of another type, kept for so many seconds. */
  lemma FirstHop(ttl: u32, server: RootServers.RootServer) returns (h: Frame, e: Entry)
    requires server.status.UNKNOWN? && 0 < ttl <= 60
    ensures e.expiration == ttl * SECOND && e.result == POSITIVE && e.records == [TextRecord(ttl)]
    ensures HopsSoFar([h], h.after) && KeptFrom(h.after.entries, TARGET_KEY, e)
    ensures h.query.question.Some? && Leaves(h, e) && h.response.answers == [TextRecord(ttl)]
    ensures AnswersAfter([ALIAS_RECORD], [h], 1) == [ALIAS_RECORD, TextRecord(ttl)]
  {
    hide ValidFrame, EncodeRecord, CanonRecord, WellFormed, Stores, HopsSoFar;
    RecordsPrint(ttl);
    NoHopYet();
    h := DirectAnswer(TextRecord(ttl), MISSED, 0, server);
    e := RecordsEntry([TextRecord(ttl)], 60, 0);
    EntryIsLeft(h, e);
    OneMoreHop([], h);
    assert [] + [h] == [h];
    assert MinTtl(60, [TextRecord(ttl)]) == ttl by { assert [TextRecord(ttl)][..0] == []; }
  }

  /** A second hop does happen: the first one found something that was kept for one second, and
      two seconds later the second one found the address. */
  lemma TwoHops(server: RootServers.RootServer) returns (f: Frame)
    requires server.status.UNKNOWN?
    ensures ValidFrame(f) && f.ending.Answered? && AsksFor(f, ALIAS, TYPE_A) && |f.rounds| == 1 && |HopsOf(f)| == 2
    ensures f.response.answers == [ALIAS_RECORD, TextRecord(1), ADDRESS_RECORD]
  {
    hide ValidFrame, HopsSoFar, EncodeRecord, CanonRecord, WellFormed, Stores, AnswersAfter;
    RecordsPrint(1);
    var h1, e := FirstHop(1, server);
    var h2 := DirectAnswer(ADDRESS_RECORD, h1.after, 2 * SECOND, server);
    OneMoreHop([h1], h2);
    assert [h1] + [h2] == [h1, h2];
    var all := [ALIAS_RECORD, TextRecord(1), ADDRESS_RECORD];
    assert AnswersAfter([ALIAS_RECORD], [h1, h2], 2) == all;
    assert HasType(all, TYPE_A) by { assert all[2].rtype == TYPE_A; }
    f := AliasLookup([h1, h2], h2.after, 2 * SECOND, server);
    AnsweredResponse(f);
  }

  /** A first hop, and after it hops that the cache answers at the same moment. */
  lemma {:induction false} HopsFromCache(n: nat, server: RootServers.RootServer)
    returns (hops: seq<Frame>, t: Store, e: Entry)
    requires server.status.UNKNOWN? && 1 <= n <= MAX_CNAME_HOPS
    ensures |hops| == n && HopsSoFar(hops, t) && KeptFrom(t.entries, TARGET_KEY, e)
    ensures e.expiration == 60 * SECOND && e.result == POSITIVE && e.records == [TextRecord(60)]
    ensures AnswersAfter([ALIAS_RECORD], hops, n) == [ALIAS_RECORD] + Copies([TextRecord(60)], n)
    ensures !HasType([ALIAS_RECORD] + Copies([TextRecord(60)], n), TYPE_A)
    ensures hops[0].query.question.Some? && Leaves(hops[0], e)
    ensures forall i :: 1 <= i < n ==> hops[i].ending.CacheHit? && hops[i].checkedAt == 0
  {
    hide ValidFrame, HopsSoFar, AnswersAfter, Leaves;
    CopiesHaveType([ALIAS_RECORD], [TextRecord(60)], n, TYPE_A);
    if n == 1 {
      var h;
      h, e := FirstHop(60, server);
      hops, t := [h], h.after;
    } else {
      hops, t, e := HopsFromCache(n - 1, server);
      var h := CachedAnswer(t, 0, e);
      OneMoreHop(hops, h);
      hops, t := hops + [h], h.after;
    }
  }

  /** All ten hops do happen: the first one found something of another type, and the other nine
      found that in the cache. */
  lemma TenHops(server: RootServers.RootServer) returns (f: Frame, e: Entry)
    requires server.status.UNKNOWN?
    ensures ValidFrame(f) && f.ending.Answered? && AsksFor(f, ALIAS, TYPE_A) && |f.rounds| == 1 && |HopsOf(f)| == 10
    ensures f.response.answers == [ALIAS_RECORD] + Copies([TextRecord(60)], 10) && EntryOutlivesHops(f, e)
  {
    hide ValidFrame, HopsSoFar, AnswersAfter, Copies, Leaves;
    var hops, t;
    hops, t, e := HopsFromCache(10, server);
    f := AliasLookup(hops, t, 0, server);
    AnsweredResponse(f);
  }
}
