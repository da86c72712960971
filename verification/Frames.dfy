/**
 What one lookup may do, as a relation: a `Frame` records a whole call of the resolver, with the
 nested calls it made, the referral rounds it went through and what it did to the cache, and
 `ValidFrame` says which records describe a run.  The lemmas hold of every valid frame, hence of
 every call at every depth, whatever the upstream servers answer.
 */
module Frames {
  import opened Wire
  import opened Names
  import opened Headers
  import opened Records
  import opened Packets
  import opened Upstream
  import opened Cache
  import RootServers

  const MAX_REFERRALS: nat := 16
  const MAX_CNAME_HOPS: nat := 10

  // ----- The pieces of a lookup -----

  function NsNames(rs: seq<Record>): seq<Name> {
    if rs == [] then []
    else
      var last := rs[|rs| - 1].data;
      NsNames(rs[..|rs| - 1]) + if last.NS? then [last.nameServer] else []
  }

  ghost predicate HasAddress(rs: seq<Record>, a: Address) {
    exists i :: 0 <= i < |rs| && Holds(rs[i], a)
  }

  /** Address `a` is in an additional record whose owner is a name server of the response, in any letter case. */
  ghost predicate IsGlue(response: Packet, a: Address) {
    exists n, i :: n in NsNames(response.authorities) && 0 <= i < |response.additionals|
      && SameSpelling(response.additionals[i].name, n) && Holds(response.additionals[i], a)
  }

  ghost predicate HasGlue(response: Packet) {
    exists a :: IsGlue(response, a)
  }

  /** The TTL of a negative answer: from the first SOA record of the authority section. */
  function NegativeTtl(rs: seq<Record>): u32 {
    if rs == [] then DEFAULT_TTL
    else if rs[0].data.SOA? then
      var ttl, minimum := rs[0].ttl, rs[0].data.minimum;
      if ttl > 0 && minimum > 0 then (if minimum < ttl then minimum else ttl)
      else if ttl > 0 then ttl
      else if minimum > 0 then minimum
      else DEFAULT_TTL
    else NegativeTtl(rs[1..])
  }

  /** It is the least of the nonzero ones among TTL and MINIMUM of the first SOA, and 60 if there
      is neither (section 5 of RFC 2308). */
  lemma {:induction false} NegativeTtlIsLeast(rs: seq<Record>, k: nat)
    requires k <= |rs| && forall i :: 0 <= i < k ==> !rs[i].data.SOA?
    requires k < |rs| ==> rs[k].data.SOA?
    ensures NegativeTtl(rs) > 0
    ensures k == |rs| ==> NegativeTtl(rs) == 60
    ensures k < |rs| ==> var ttl, minimum := rs[k].ttl, rs[k].data.minimum;
      && (ttl > 0 ==> NegativeTtl(rs) <= ttl) && (minimum > 0 ==> NegativeTtl(rs) <= minimum)
      && NegativeTtl(rs) in (if ttl == 0 && minimum == 0 then {60} else {ttl, minimum})
  {
    if k > 0 {
      NegativeTtlIsLeast(rs[1..], k - 1);
    }
  }

  function Finalized(response: Packet, query: Packet): Packet {
    if response.header.IsResponse() then
      response.(header := Answering(response.header, query.header),
                question := if response.question.None? && query.question.Some? then query.question else response.question)
    else response
  }

  /** The response made from a cache entry. */
  function CachedResponse(query: Packet, entry: Entry): Packet {
    var header := BLANK.(id := query.header.id).SetResponse(true)
      .SetRecursionDesired(query.header.RecursionDesired()).SetRecursionAvailable(true)
      .SetResultCode(if entry.result == CacheResult.NXDOMAIN then ResultCode.NXDOMAIN else NOERROR);
    Packet(header, query.question, if entry.result == POSITIVE then entry.records else [], [], [])
  }

  function KeyOf(query: Packet): Key
    requires query.question.Some?
  {
    CacheKey(query.question.value.name, query.question.value.qtype)
  }

  predicate HasType(rs: seq<Record>, rtype: u16) {
    exists i :: 0 <= i < |rs| && rs[i].rtype == rtype
  }

  /** The target of the first alias among the answers, empty if there is none. */
  function AliasTarget(rs: seq<Record>): Name {
    if rs == [] then []
    else if rs[0].rtype == TYPE_CNAME && rs[0].data.CNAME? then rs[0].data.canonicalName
    else AliasTarget(rs[1..])
  }

  /** A reply that ends a referral round. */
  predicate Accepted(reply: Packet) {
    reply.header.IsResponse() &&
    (reply.header.GetResultCode() != NOERROR || reply.answers != [] || reply.authorities != [] || reply.additionals != [])
  }

  /** The candidates not queried in an earlier round, in order. */
  function FreshOnes(candidates: seq<Address>, earlier: seq<Address>): seq<Address> {
    if candidates == [] then []
    else
      var last := candidates[|candidates| - 1];
      FreshOnes(candidates[..|candidates| - 1], earlier) + if last in earlier then [] else [last]
  }

  // ----- Frames -----

  datatype Ending =
    | NoQuestion | OutOfFuel | CacheHit | NotResponse | Answered | Failed
    | NoReferral | NoCandidates | AllSilent | Exhausted

  /** One referral round: the response it started from, the nested lookups start..end it made for
      name servers without glue, the candidates, and the servers queried, with the exchange with
      each of them and the reply it amounts to. */
  datatype Round = Round(response: Packet, start: nat, end: nat, candidates: seq<Address>,
                         queried: seq<Address>, contacts: seq<Contact>, replies: seq<Packet>)

  datatype Frame = Frame(query: Packet, before: Store, checkedAt: nat, roots: seq<RootServers.RootServer>,
                         log: seq<RootServers.Attempt>, first: Packet, rounds: seq<Round>,
                         last: Packet, nested: seq<Frame>, ending: Ending, made: nat, storedAt: nat,
                         response: Packet, after: Store)

  ghost predicate AsksFor(f: Frame, name: Name, qtype: u16) {
    f.query.question == Some(Question(name, qtype, 1))
  }

  ghost predicate AskedForAll(names: seq<Name>, asked: seq<Frame>) {
    && |asked| == 2 * |names|
    && forall i :: 0 <= i < |names| ==>
         AsksFor(asked[2 * i], names[i], TYPE_A) && AsksFor(asked[2 * i + 1], names[i], TYPE_AAAA)
  }

  ghost predicate AnsweredAddress(asked: seq<Frame>, a: Address) {
    exists j :: 0 <= j < |asked| && HasAddress(asked[j].response.answers, a)
  }

  ghost predicate NoDuplicates(s: seq<Address>) {
    forall i, j :: 0 <= i < j < |s| ==> s[i] != s[j]
  }

  /** Where addresses are looked for, in two nested loops: for each name server, the additional
      records; or for each nested lookup, its answers. */
  datatype Places = GluePlaces(response: Packet) | AnswerPlaces(asked: seq<Frame>)

  ghost predicate Mentions(places: Places, j: nat, i: nat, a: Address) {
    match places
    case GluePlaces(response) =>
      var names := NsNames(response.authorities);
      && j < |names| && i < |response.additionals|
      && SameSpelling(response.additionals[i].name, names[j]) && Holds(response.additionals[i], a)
    case AnswerPlaces(asked) => j < |asked| && i < |asked[j].response.answers| && Holds(asked[j].response.answers[i], a)
  }

  predicate Earlier(j: nat, i: nat, j': nat, i': nat) {
    j < j' || (j == j' && i < i')
  }

  /** Address `a` is mentioned before `b` ever is. */
  ghost predicate FirstBefore(places: Places, a: Address, b: Address) {
    exists j: nat, i: nat :: Mentions(places, j, i, a) &&
      forall j': nat, i': nat :: Mentions(places, j', i', b) ==> Earlier(j, i, j', i')
  }

  /** The addresses mentioned, each once, in the order they are first mentioned. */
  ghost predicate Collected(places: Places, candidates: seq<Address>) {
    && NoDuplicates(candidates)
    && (forall a :: a in candidates <==> exists j: nat, i: nat :: Mentions(places, j, i, a))
    && forall x, y :: 0 <= x < y < |candidates| ==> FirstBefore(places, candidates[x], candidates[y])
  }

  /** The candidates are the glue; only when there is none, the addresses that nested lookups of
      the name servers found. */
  ghost predicate CandidatesFrom(response: Packet, asked: seq<Frame>, candidates: seq<Address>) {
    if HasGlue(response) then
      asked == [] && Collected(GluePlaces(response), candidates)
    else
      AskedForAll(NsNames(response.authorities), asked) && Collected(AnswerPlaces(asked), candidates)
  }

  lemma GlueIsMentioned(response: Packet, a: Address)
    ensures IsGlue(response, a) <==> exists j: nat, i: nat :: Mentions(GluePlaces(response), j, i, a)
  {
    hide NsNames;
    var names := NsNames(response.authorities);
    if IsGlue(response, a) {
      var n, i :| n in names && 0 <= i < |response.additionals|
        && SameSpelling(response.additionals[i].name, n) && Holds(response.additionals[i], a);
      var j :| 0 <= j < |names| && names[j] == n;
      assert Mentions(GluePlaces(response), j, i, a);
    }
    if exists j: nat, i: nat :: Mentions(GluePlaces(response), j, i, a) {
      var j: nat, i: nat :| Mentions(GluePlaces(response), j, i, a);
      assert names[j] in names;
    }
  }

  lemma AnswerIsMentioned(asked: seq<Frame>, a: Address)
    ensures AnsweredAddress(asked, a) <==> exists j: nat, i: nat :: Mentions(AnswerPlaces(asked), j, i, a)
  {
    if AnsweredAddress(asked, a) {
      var j :| 0 <= j < |asked| && HasAddress(asked[j].response.answers, a);
      var i :| 0 <= i < |asked[j].response.answers| && Holds(asked[j].response.answers[i], a);
      assert Mentions(AnswerPlaces(asked), j, i, a);
    }
  }

  ghost predicate Replies(query: Packet, r: Round) {
    && |r.replies| == |r.queried|
    && |r.contacts| == |r.queried| && (forall i :: 0 <= i < |r.queried| ==> r.contacts[i].address == r.queried[i])
    && (forall i :: 0 <= i < |r.replies| ==> r.replies[i] == ReplyOf(query, r.contacts[i].exchange))
    && (forall i :: 0 <= i < |r.replies| - 1 ==> !Accepted(r.replies[i]))
  }

  ghost predicate IsReferral(response: Packet) {
    && response.header.IsResponse() && response.answers == [] && response.header.GetResultCode() == NOERROR
    && (response.authorities != [] || response.additionals != [])
  }

  ghost predicate ValidRound(query: Packet, nested: seq<Frame>, r: Round, earlier: seq<Address>) {
    && IsReferral(r.response)
    && r.start <= r.end <= |nested|
    && NoDuplicates(r.candidates) && CandidatesFrom(r.response, nested[r.start..r.end], r.candidates)
    && r.queried <= FreshOnes(r.candidates, earlier)
    && Replies(query, r)
  }

  ghost predicate Completed(r: Round) {
    r.replies != [] && Accepted(r.replies[|r.replies| - 1])
  }

  ghost predicate Silent(r: Round, earlier: seq<Address>) {
    r.queried == FreshOnes(r.candidates, earlier) && forall i :: 0 <= i < |r.replies| ==> !Accepted(r.replies[i])
  }

  /** All addresses queried in the first `k` rounds. */
  ghost function Queried(rounds: seq<Round>, k: nat): seq<Address>
    requires k <= |rounds|
  {
    if k == 0 then [] else Queried(rounds, k - 1) + rounds[k - 1].queried
  }

  /** The response the frame is at after `k` rounds. */
  ghost function Current(first: Packet, rounds: seq<Round>, k: nat): Packet
    requires k <= |rounds|
  {
    if k == 0 || rounds[k - 1].replies == [] then first
    else rounds[k - 1].replies[|rounds[k - 1].replies| - 1]
  }

  /** The nested lookups made in the first `k` rounds. */
  ghost function NestedUpTo(rounds: seq<Round>, k: nat): nat
    requires k <= |rounds|
  {
    if k == 0 then 0 else rounds[k - 1].end
  }

  ghost predicate ValidRounds(f: Frame, completed: nat) {
    && completed <= |f.rounds| <= MAX_REFERRALS
    && RootServers.RootsAsked(f.query, f.roots, f.log, f.first)
    && (forall k :: 0 <= k < |f.rounds| ==>
         && ValidRound(f.query, f.nested, f.rounds[k], Queried(f.rounds, k))
         && f.rounds[k].response == Current(f.first, f.rounds, k)
         && f.rounds[k].start == NestedUpTo(f.rounds, k))
    && (forall k :: 0 <= k < completed ==> Completed(f.rounds[k]))
    && f.last == Current(f.first, f.rounds, completed)
  }

  /** The cache goes from `s` to `t` through the nested lookups, one after the other. */
  ghost predicate Threads(s: Store, nested: seq<Frame>, t: Store)
    decreases |nested|
  {
    if nested == [] then t == s
    else
      var last := nested[|nested| - 1];
      Threads(s, nested[..|nested| - 1], last.before) && t == last.after
  }

  /** The answers after the first `n` hops. */
  ghost function AnswersAfter(answers: seq<Record>, hops: seq<Frame>, n: nat): seq<Record>
    requires n <= |hops|
  {
    if n == 0 then answers else AnswersAfter(answers, hops, n - 1) + hops[n - 1].response.answers
  }

  /** Hop `n` looks the first alias up, none of the answers so far having the requested type. */
  ghost predicate HopAt(answers: seq<Record>, qtype: u16, hops: seq<Frame>, n: nat)
    requires n < |hops|
  {
    var sofar := AnswersAfter(answers, hops, n);
    !HasType(sofar, qtype) && AliasTarget(sofar) != [] && AsksFor(hops[n], AliasTarget(sofar), qtype)
  }

  /** Following aliases: hop after hop while no answer has the requested type. */
  ghost predicate Hops(answers: seq<Record>, qtype: u16, hops: seq<Frame>) {
    && |hops| <= MAX_CNAME_HOPS
    && (forall n :: 0 <= n < |hops| ==> HopAt(answers, qtype, hops, n))
    && (forall n :: 0 <= n < |hops| - 1 ==> hops[n].response.answers != [])
  }

  ghost predicate HopsStop(answers: seq<Record>, qtype: u16, hops: seq<Frame>) {
    var all := AnswersAfter(answers, hops, |hops|);
    || |hops| == MAX_CNAME_HOPS
    || (hops != [] && hops[|hops| - 1].response.answers == [])
    || HasType(all, qtype)
    || AliasTarget(all) == []
  }

  ghost predicate Chased(answers: seq<Record>, qtype: u16, hops: seq<Frame>) {
    if qtype == TYPE_CNAME then hops == []
    else Hops(answers, qtype, hops) && HopsStop(answers, qtype, hops)
  }

  /** The hops of a frame are the nested lookups after its rounds. */
  ghost function HopsOf(f: Frame): seq<Frame> {
    var n := NestedUpTo(f.rounds, |f.rounds|);
    if n <= |f.nested| then f.nested[n..] else []
  }

  ghost function FinalAnswers(f: Frame): seq<Record> {
    AnswersAfter(f.last.answers, HopsOf(f), |HopsOf(f)|)
  }

  ghost predicate EndsInRound(e: Ending) {
    e.NoCandidates? || e.AllSilent?
  }

  ghost function CompletedRounds(f: Frame): nat {
    if EndsInRound(f.ending) && f.rounds != [] then |f.rounds| - 1 else |f.rounds|
  }

  /** Why the frame ended, and what it returned. */
  ghost predicate ValidEnding(f: Frame)
    requires f.query.question.Some?
  {
    var qtype := f.query.question.value.qtype;
    && NestedUpTo(f.rounds, |f.rounds|) <= |f.nested|
    && (!f.ending.Answered? ==> HopsOf(f) == [])
    && (f.ending.Exhausted? || EndsInRound(f.ending) || |f.rounds| < MAX_REFERRALS)
    && match f.ending
       case NotResponse => !f.last.header.IsResponse() && f.response == f.last
       case Answered =>
         && f.last.header.IsResponse() && f.last.answers != [] && Chased(f.last.answers, qtype, HopsOf(f))
         && f.response == Finalized(f.last.(answers := FinalAnswers(f)), f.query)
       case Failed =>
         && f.last.header.IsResponse() && f.last.answers == [] && f.last.header.GetResultCode() != NOERROR
         && f.response == Finalized(f.last, f.query)
       case NoReferral =>
         && f.last.header.IsResponse() && f.last.answers == [] && f.last.header.GetResultCode() == NOERROR
         && f.last.authorities == [] && f.last.additionals == [] && f.response == Finalized(f.last, f.query)
       case NoCandidates =>
         && f.rounds != [] && f.rounds[|f.rounds| - 1].candidates == [] && f.response == Finalized(f.last, f.query)
       case AllSilent =>
         && f.rounds != [] && f.rounds[|f.rounds| - 1].candidates != []
         && Silent(f.rounds[|f.rounds| - 1], Queried(f.rounds, |f.rounds| - 1))
         && f.response == Finalized(f.last, f.query)
       case Exhausted => |f.rounds| == MAX_REFERRALS && f.response == Finalized(f.last, f.query)
       case _ => false
  }

  /** What the frame itself offers to the cache. */
  ghost function StoreOp(f: Frame): Option<Op>
    requires f.query.question.Some?
  {
    match f.ending
    case Answered => Some(PutRecords(KeyOf(f.query), FinalAnswers(f), 60, f.made))
    case Failed =>
      if f.last.header.GetResultCode() == ResultCode.NXDOMAIN
      then Some(PutNegative(KeyOf(f.query), CacheResult.NXDOMAIN, NegativeTtl(f.last.authorities), f.made)) else None
    case NoReferral => Some(PutNegative(KeyOf(f.query), NODATA, NegativeTtl(f.last.authorities), f.made))
    case NoCandidates => Some(PutNegative(KeyOf(f.query), NODATA, NegativeTtl(f.last.authorities), f.made))
    case AllSilent => Some(PutNegative(KeyOf(f.query), NODATA, NegativeTtl(f.last.authorities), f.made))
    case _ => None
  }

  /** The cache after the check for a cached answer. */
  ghost function Opening(f: Frame): Store
    requires f.query.question.Some?
  {
    Step(f.before, Get(KeyOf(f.query)), f.checkedAt)
  }

  /** The cache just before the frame stores its own result. */
  ghost function BeforeStoring(f: Frame): Store
    requires f.query.question.Some?
  {
    if f.nested == [] then Opening(f) else f.nested[|f.nested| - 1].after
  }

  ghost function AfterStoring(f: Frame, s: Store): Store
    requires f.query.question.Some?
  {
    var op := StoreOp(f);
    if op.Some? then Step(s, op.value, f.storedAt) else s
  }

  /** The clock readings of a frame that stores something are in order. */
  ghost predicate Timely(f: Frame)
    requires f.query.question.Some?
  {
    StoreOp(f).Some? ==> f.checkedAt <= f.made <= f.storedAt
  }

  ghost predicate ResolvedFrame(f: Frame)
    requires f.query.question.Some?
  {
    && FindAt(f.before.entries, KeyOf(f.query), f.checkedAt).None?
    && Threads(Opening(f), f.nested, BeforeStoring(f))
    && ValidRounds(f, CompletedRounds(f))
    && ValidEnding(f)
    && f.after == AfterStoring(f, BeforeStoring(f)) && Timely(f)
  }

  ghost predicate ValidFrame(f: Frame)
    decreases f
  {
    && (forall n :: 0 <= n < |f.nested| ==> ValidFrame(f.nested[n]))
    && match f.ending
       case OutOfFuel => f.rounds == [] && f.nested == [] && f.response == EMPTY_PACKET && f.after == f.before
       case NoQuestion =>
         && f.rounds == [] && f.nested == []
         && f.query.question.None? && f.response == EMPTY_PACKET && f.after == f.before
       case CacheHit =>
         && f.rounds == [] && f.nested == [] && f.query.question.Some?
         && (var found := FindAt(f.before.entries, KeyOf(f.query), f.checkedAt);
             found.Some? && f.response == CachedResponse(f.query, found.value))
         && f.after == Opening(f)
       case _ => f.query.question.Some? && ResolvedFrame(f)
  }

  // ----- What every frame guarantees -----

  lemma CachedResponseAnswers(query: Packet, entry: Entry)
    ensures AnswersFor(CachedResponse(query, entry).header, query.header)
    ensures CachedResponse(query, entry).header.GetResultCode() ==
      if entry.result == CacheResult.NXDOMAIN then ResultCode.NXDOMAIN else NOERROR
  {
  }

  /** Every packet a lookup returns with QR set carries the query's ID and RD bit, RA set, AA
      clear, and a question: on every path, for every upstream behaviour. */
  lemma ResponseAnswersQuery(f: Frame)
    requires ValidFrame(f) && f.response.header.IsResponse()
    ensures AnswersFor(f.response.header, f.query.header) && f.response.question.Some?
  {
    hide ValidRounds, Threads, BeforeStoring, AfterStoring, KeyOf, Chased, FinalAnswers, Silent;
    if f.ending.CacheHit? {
      CachedResponseAnswers(f.query, FindAt(f.before.entries, KeyOf(f.query), f.checkedAt).value);
    } else if f.ending.Answered? {
      AnsweringAnswers(f.last.header, f.query.header);
    } else if !f.ending.OutOfFuel? && !f.ending.NoQuestion? && !f.ending.NotResponse? {
      AnsweringAnswers(f.last.header, f.query.header);
      assert f.response == Finalized(f.last, f.query);
    }
  }

  lemma {:induction false} FreshOnesMembers(candidates: seq<Address>, earlier: seq<Address>)
    ensures forall a :: a in FreshOnes(candidates, earlier) <==> a in candidates && a !in earlier
    decreases |candidates|
  {
    if candidates != [] {
      FreshOnesMembers(candidates[..|candidates| - 1], earlier);
    }
  }

  lemma {:induction false} FreshOnesDistinct(candidates: seq<Address>, earlier: seq<Address>)
    requires NoDuplicates(candidates)
    ensures NoDuplicates(FreshOnes(candidates, earlier))
    decreases |candidates|
  {
    if candidates != [] {
      var front := candidates[..|candidates| - 1];
      FreshOnesDistinct(front, earlier);
      FreshOnesMembers(front, earlier);
    }
  }

  /** Round `k` queries candidates only, each once, none queried in an earlier round. */
  lemma RoundQueriesFreshOnes(f: Frame, k: nat)
    requires ValidRounds(f, CompletedRounds(f)) && k < |f.rounds|
    ensures NoDuplicates(f.rounds[k].queried)
    ensures forall a :: a in f.rounds[k].queried ==> a in f.rounds[k].candidates && a !in Queried(f.rounds, k)
  {
    hide RootServers.RootsAsked, CandidatesFrom, Replies, IsReferral, Queried, FreshOnes;
    var r, earlier := f.rounds[k], Queried(f.rounds, k);
    assert ValidRound(f.query, f.nested, r, earlier);
    FreshOnesDistinct(r.candidates, earlier);
    FreshOnesMembers(r.candidates, earlier);
    var unseen := FreshOnes(r.candidates, earlier);
    assert forall i :: 0 <= i < |r.queried| ==> r.queried[i] == unseen[i];
  }

  lemma {:induction false} NoRoundRepeats(f: Frame, k: nat)
    requires ValidRounds(f, CompletedRounds(f)) && k <= |f.rounds|
    ensures NoDuplicates(Queried(f.rounds, k))
    decreases k
  {
    hide ValidRounds;
    if k > 0 {
      NoRoundRepeats(f, k - 1);
      RoundQueriesFreshOnes(f, k - 1);
      DistinctConcatenation(Queried(f.rounds, k - 1), f.rounds[k - 1].queried);
    }
  }

  lemma DistinctConcatenation(s: seq<Address>, t: seq<Address>)
    requires NoDuplicates(s) && NoDuplicates(t) && forall a :: a in t ==> a !in s
    ensures NoDuplicates(s + t)
  {
    forall i, j | 0 <= i < j < |s + t|
      ensures (s + t)[i] != (s + t)[j]
    {
      if |s| <= j { assert (s + t)[j] in t; }
    }
  }

  /** In one lookup no server is queried twice, over all its referral rounds. */
  lemma NoServerQueriedTwice(f: Frame)
    requires ValidFrame(f)
    ensures NoDuplicates(Queried(f.rounds, |f.rounds|))
  {
    if f.rounds != [] {
      NoRoundRepeats(f, |f.rounds|);
    }
  }

  lemma CompletedRoundQueries(f: Frame, k: nat)
    requires ValidRounds(f, CompletedRounds(f)) && k < CompletedRounds(f)
    ensures f.rounds[k].queried != []
  {
    hide RootServers.RootsAsked, CandidatesFrom, IsReferral, Queried, FreshOnes, Accepted;
    assert Completed(f.rounds[k]) && ValidRound(f.query, f.nested, f.rounds[k], Queried(f.rounds, k));
  }

  lemma {:induction false} RoundsMakeProgress(f: Frame, k: nat)
    requires ValidRounds(f, CompletedRounds(f)) && k <= CompletedRounds(f)
    ensures k <= |Queried(f.rounds, k)|
    decreases k
  {
    hide ValidRounds, CompletedRounds;
    if k > 0 {
      assert ValidRounds(f, CompletedRounds(f));
      RoundsMakeProgress(f, k - 1);
      CompletedRoundQueries(f, k - 1);
    }
  }

  /** Each completed round queries at least one fresh server, so the completed rounds are bounded
      by the number of servers queried as well as by sixteen. */
  lemma RoundsAreBounded(f: Frame)
    requires ValidFrame(f)
    ensures |f.rounds| <= 16
    ensures CompletedRounds(f) <= |Queried(f.rounds, CompletedRounds(f))|
  {
    if f.rounds != [] {
      RoundsMakeProgress(f, CompletedRounds(f));
    }
  }

  /** Where a candidate comes from: glue of that round's response, or, only when the response has
      no glue at all, the answers of a nested lookup of one of its name servers. */
  ghost predicate HasOrigin(f: Frame, r: Round, a: Address) {
    || IsGlue(r.response, a)
    || (!HasGlue(r.response) && exists j :: r.start <= j < r.end && FoundBy(f, r, j, a))
  }

  ghost predicate FoundBy(f: Frame, r: Round, j: nat, a: Address) {
    && j < |f.nested| && HasAddress(f.nested[j].response.answers, a)
    && f.nested[j].query.question.Some?
    && f.nested[j].query.question.value.name in NsNames(r.response.authorities)
    && f.nested[j].query.question.value.qtype in {TYPE_A, TYPE_AAAA}
  }

  lemma AskedOrigin(names: seq<Name>, asked: seq<Frame>, j: nat)
    requires AskedForAll(names, asked) && j < |asked|
    ensures asked[j].query.question.Some? && asked[j].query.question.value.name in names
    ensures asked[j].query.question.value.qtype in {TYPE_A, TYPE_AAAA}
  {
    var i := j / 2;
    assert AsksFor(asked[2 * i], names[i], TYPE_A) && AsksFor(asked[2 * i + 1], names[i], TYPE_AAAA);
    assert j == 2 * i || j == 2 * i + 1;
  }

  lemma CandidateOrigin(f: Frame, r: Round, a: Address)
    requires r.start <= r.end <= |f.nested| && a in r.candidates
    requires CandidatesFrom(r.response, f.nested[r.start..r.end], r.candidates)
    ensures HasOrigin(f, r, a)
  {
    hide IsGlue, NsNames, AskedForAll, FirstBefore, Mentions;
    GlueIsMentioned(r.response, a);
    if !HasGlue(r.response) {
      var asked := f.nested[r.start..r.end];
      AnswerIsMentioned(asked, a);
      assert AnsweredAddress(asked, a);
      var j :| 0 <= j < |asked| && HasAddress(asked[j].response.answers, a);
      AskedOrigin(NsNames(r.response.authorities), asked, j);
      assert asked[j] == f.nested[r.start + j];
      assert FoundBy(f, r, r.start + j, a);
    }
  }

  /** Every server queried in any round is a candidate with such an origin. */
  lemma QueriedAddressOrigin(f: Frame, k: nat, a: Address)
    requires ValidFrame(f) && k < |f.rounds| && a in f.rounds[k].queried
    ensures HasOrigin(f, f.rounds[k], a)
  {
    hide RootServers.RootsAsked, CandidatesFrom, HasOrigin, IsReferral, Replies, ValidEnding, Threads, AfterStoring;
    assert ValidRounds(f, CompletedRounds(f));
    assert ValidRound(f.query, f.nested, f.rounds[k], Queried(f.rounds, k));
    RoundQueriesFreshOnes(f, k);
    CandidateOrigin(f, f.rounds[k], a);
  }

  lemma {:induction false} AnswersGrow(answers: seq<Record>, hops: seq<Frame>, m: nat, n: nat)
    requires m <= n <= |hops|
    ensures AnswersAfter(answers, hops, m) <= AnswersAfter(answers, hops, n)
    decreases n
  {
    if m < n {
      AnswersGrow(answers, hops, m, n - 1);
    }
  }

  lemma {:induction false} AliasTargetOfPrefix(rs: seq<Record>, more: seq<Record>)
    requires AliasTarget(rs) != []
    ensures AliasTarget(rs + more) == AliasTarget(rs)
  {
    if !(rs[0].rtype == TYPE_CNAME && rs[0].data.CNAME?) {
      AliasTargetOfPrefix(rs[1..], more);
      assert (rs + more)[1..] == rs[1..] + more;
    }
  }

  /** Alias chasing only appends: the upstream answers stay a prefix, at most ten lookups are
      made, none once a record of the requested type is there, and what is returned is what was
      offered to the cache. */
  lemma ChasingOnlyAppends(f: Frame)
    requires ValidFrame(f) && f.ending.Answered?
    ensures f.last.answers <= f.response.answers && |HopsOf(f)| <= 10
    ensures StoreOp(f).Some? && StoreOp(f).value.PutRecords? && StoreOp(f).value.records == f.response.answers
    ensures forall n :: 0 <= n < |HopsOf(f)| ==>
      !HasType(AnswersAfter(f.last.answers, HopsOf(f), n), f.query.question.value.qtype)
  {
    AnswersGrow(f.last.answers, HopsOf(f), 0, |HopsOf(f)|);
    forall n | 0 <= n < |HopsOf(f)|
      ensures !HasType(AnswersAfter(f.last.answers, HopsOf(f), n), f.query.question.value.qtype)
    {
      assert HopAt(f.last.answers, f.query.question.value.qtype, HopsOf(f), n);
    }
  }

  /** All hops of one lookup ask for the same name: the first alias is looked for from the start
      of the answers every time, so later aliases are followed by the nested lookups alone. */
  lemma HopsAskForTheSameName(f: Frame, n: nat)
    requires ValidFrame(f) && f.ending.Answered? && n < |HopsOf(f)|
    ensures AsksFor(HopsOf(f)[n], AliasTarget(f.last.answers), f.query.question.value.qtype)
  {
    HopsShareTarget(f.last.answers, f.query.question.value.qtype, HopsOf(f), n);
  }

  lemma TargetStays(answers: seq<Record>, hops: seq<Frame>, n: nat)
    requires n <= |hops| && AliasTarget(answers) != []
    ensures AliasTarget(AnswersAfter(answers, hops, n)) == AliasTarget(answers)
  {
    AnswersGrow(answers, hops, 0, n);
    var sofar := AnswersAfter(answers, hops, n);
    AliasTargetOfPrefix(answers, sofar[|answers|..]);
    assert sofar == answers + sofar[|answers|..];
  }

  lemma HopsShareTarget(answers: seq<Record>, qtype: u16, hops: seq<Frame>, n: nat)
    requires Hops(answers, qtype, hops) && n < |hops|
    ensures AsksFor(hops[n], AliasTarget(answers), qtype) && AliasTarget(answers) != []
  {
    assert HopAt(answers, qtype, hops, n) && HopAt(answers, qtype, hops, 0);
    assert AnswersAfter(answers, hops, 0) == answers;
    TargetStays(answers, hops, n);
  }

  /** There is a first hop exactly if the question is not for the alias itself and the answers hold
      an alias but nothing of the requested type. */
  lemma FirstHopIff(f: Frame)
    requires ValidFrame(f) && f.ending.Answered?
    ensures var qtype := f.query.question.value.qtype;
      HopsOf(f) != [] <==> qtype != TYPE_CNAME && !HasType(f.last.answers, qtype) && AliasTarget(f.last.answers) != []
  {
    hide ValidRounds, Threads, BeforeStoring, AfterStoring, FindAt, KeyOf, HopsOf, HasType, AliasTarget;
    assert AnswersAfter(f.last.answers, HopsOf(f), 0) == f.last.answers;
    if HopsOf(f) != [] {
      assert HopAt(f.last.answers, f.query.question.value.qtype, HopsOf(f), 0);
    }
  }

  /** After hop `n` there is another one exactly if the hop found something, but still nothing of
      the requested type.  As it asks for the same name again, a chain is followed link by link
      exactly when there is no second hop, that is when the first one fails this test. */
  lemma AnotherHopIff(f: Frame, n: nat)
    requires ValidFrame(f) && f.ending.Answered? && 1 <= n <= |HopsOf(f)| && n < 10
    ensures |HopsOf(f)| > n <==>
      && HopsOf(f)[n - 1].response.answers != []
      && !HasType(AnswersAfter(f.last.answers, HopsOf(f), n), f.query.question.value.qtype)
  {
    hide ValidRounds, Threads, BeforeStoring, AfterStoring, FindAt, KeyOf, HopsOf, HasType, AnswersAfter;
    var answers, qtype, hops := f.last.answers, f.query.question.value.qtype, HopsOf(f);
    assert Hops(answers, qtype, hops) && HopsStop(answers, qtype, hops);
    HopsShareTarget(answers, qtype, hops, 0);
    TargetStays(answers, hops, n);
    if |hops| > n {
      assert HopAt(answers, qtype, hops, n);
    }
  }

  // ----- What the cache makes of later hops -----

  lemma {:induction false} ThreadsAdjacent(s: Store, nested: seq<Frame>, t: Store, i: nat)
    requires Threads(s, nested, t) && i < |nested|
    ensures Threads(s, nested[..i], nested[i].before)
    ensures i > 0 ==> nested[i].before == nested[i - 1].after
    decreases |nested|
  {
    var front := nested[..|nested| - 1];
    if i < |front| {
      ThreadsAdjacent(s, front, nested[|nested| - 1].before, i);
      assert front[..i] == nested[..i];
    }
  }

  lemma HopsAreThreaded(f: Frame, n: nat)
    requires ValidFrame(f) && f.ending.Answered? && n < |HopsOf(f)|
    ensures ValidFrame(HopsOf(f)[n]) && (n > 0 ==> HopsOf(f)[n].before == HopsOf(f)[n - 1].after)
  {
    hide ValidRounds, ValidEnding, BeforeStoring, AfterStoring, FindAt, AliasTarget, KeyOf, Opening;
    var start := NestedUpTo(f.rounds, |f.rounds|);
    assert ResolvedFrame(f);
    ThreadsAdjacent(Opening(f), f.nested, BeforeStoring(f), start + n);
  }

  lemma HopsShareKey(f: Frame, n: nat)
    requires ValidFrame(f) && f.ending.Answered? && n < |HopsOf(f)|
    ensures HopsOf(f)[n].query.question.Some? && HopsOf(f)[0].query.question.Some?
    ensures KeyOf(HopsOf(f)[n].query) == KeyOf(HopsOf(f)[0].query)
  {
    hide ResolvedFrame, HopsOf, AliasTarget;
    HopsAskForTheSameName(f, n);
    HopsAskForTheSameName(f, 0);
  }

  /** Lookup `h` leaves entry `e` under its key, and its answers are those of the entry. */
  ghost predicate Leaves(h: Frame, e: Entry)
    requires h.query.question.Some?
  {
    KeptFrom(h.after.entries, KeyOf(h.query), e) && CachedResponse(h.query, e).answers == h.response.answers
  }

  /** The entry a lookup leaves is the one it stored, or the one it was answered from. */
  lemma EntryIsLeft(h: Frame, e: Entry)
    requires ValidFrame(h) && h.query.question.Some?
    requires if h.ending.CacheHit? then FindAt(h.before.entries, KeyOf(h.query), h.checkedAt) == Some(e) else Stores(h, e)
    ensures Leaves(h, e)
  {
    hide ResolvedFrame, Stores, CachedResponse, KeyOf;
    if !h.ending.CacheHit? {
      StoredEntryIsInPlace(h, e);
      StoredEntryMatchesResponse(h, e);
    }
  }

  lemma HitRepeats(h: Frame, k: Key, e: Entry)
    requires ValidFrame(h) && h.query.question.Some? && !h.ending.OutOfFuel? && KeyOf(h.query) == k
    requires KeptFrom(h.before.entries, k, e) && h.checkedAt < e.expiration
    ensures h.ending.CacheHit? && h.response == CachedResponse(h.query, e) && KeptFrom(h.after.entries, k, e)
  {
    hide ResolvedFrame, CachedResponse, KeyOf;
    CachedEntryIsServed(h, e);
  }

  /** The hops from the second on find the entry of the first one, as long as it lives. */
  ghost predicate EntryOutlivesHops(f: Frame, e: Entry) {
    && HopsOf(f) != [] && HopsOf(f)[0].query.question.Some? && Leaves(HopsOf(f)[0], e)
    && forall n :: 1 <= n < |HopsOf(f)| ==> !HopsOf(f)[n].ending.OutOfFuel? && HopsOf(f)[n].checkedAt < e.expiration
  }

  lemma {:induction false} LaterHopRepeats(f: Frame, e: Entry, n: nat)
    requires ValidFrame(f) && f.ending.Answered? && EntryOutlivesHops(f, e) && n < |HopsOf(f)|
    ensures KeptFrom(HopsOf(f)[n].after.entries, KeyOf(HopsOf(f)[0].query), e)
    ensures HopsOf(f)[n].response.answers == HopsOf(f)[0].response.answers
    ensures n > 0 ==> HopsOf(f)[n].ending.CacheHit?
  {
    hide ValidFrame, HopsOf, KeyOf, CachedResponse, KeptFrom;
    if n > 0 {
      LaterHopRepeats(f, e, n - 1);
      HopsAreThreaded(f, n);
      HopsShareKey(f, n);
      HitRepeats(HopsOf(f)[n], KeyOf(HopsOf(f)[0].query), e);
      SameEntrySameAnswers(HopsOf(f)[n].query, HopsOf(f)[0].query, e);
    }
  }

  /** `rs`, `n` times over. */
  ghost function Copies(rs: seq<Record>, n: nat): seq<Record> {
    if n == 0 then [] else Copies(rs, n - 1) + rs
  }

  lemma {:induction false} AnswersAreCopies(answers: seq<Record>, hops: seq<Frame>, rs: seq<Record>, n: nat)
    requires n <= |hops| && forall i :: 0 <= i < n ==> hops[i].response.answers == rs
    ensures AnswersAfter(answers, hops, n) == answers + Copies(rs, n)
  {
    if n > 0 {
      AnswersAreCopies(answers, hops, rs, n - 1);
    } else {
      assert answers + [] == answers;
    }
  }

  lemma HasTypeJoin(a: seq<Record>, b: seq<Record>, rtype: u16)
    ensures HasType(a + b, rtype) <==> HasType(a, rtype) || HasType(b, rtype)
  {
    if HasType(a, rtype) {
      var i :| 0 <= i < |a| && a[i].rtype == rtype;
      assert (a + b)[i].rtype == rtype;
    }
    if HasType(b, rtype) {
      var i :| 0 <= i < |b| && b[i].rtype == rtype;
      assert (a + b)[|a| + i].rtype == rtype;
    }
  }

  lemma {:induction false} CopiesHaveType(answers: seq<Record>, rs: seq<Record>, n: nat, rtype: u16)
    requires n > 0
    ensures HasType(answers + Copies(rs, n), rtype) <==> HasType(answers + rs, rtype)
  {
    HasTypeJoin(answers, rs, rtype);
    HasTypeJoin(answers, Copies(rs, n), rtype);
    HasTypeJoin(Copies(rs, n - 1), rs, rtype);
    if n > 1 {
      CopiesHaveType(answers, rs, n - 1, rtype);
      HasTypeJoin(answers, Copies(rs, n - 1), rtype);
    }
  }

  /** Alias chasing meets the cache.  While the entry of the first hop lives, every later hop is
      answered from it, so the loop makes one hop or all ten: ten exactly if the first hop found
      something but nothing of the requested type, and then the reply carries what it found ten
      times over. */
  lemma HopsRepeat(f: Frame, e: Entry)
    requires ValidFrame(f) && f.ending.Answered? && EntryOutlivesHops(f, e)
    ensures var hops, found := HopsOf(f), HopsOf(f)[0].response.answers;
      && |hops| == (if found != [] && !HasType(f.last.answers + found, f.query.question.value.qtype)
                    then 10 else 1)
      && (forall n :: 1 <= n < |hops| ==> hops[n].ending.CacheHit? && hops[n].response.answers == found)
      && f.response.answers == f.last.answers + Copies(found, |hops|)
  {
    hide ValidFrame, HopsOf, HasType, AnswersAfter, Copies, CachedResponse, KeptFrom;
    AnsweredResponse(f);
    var hops, found := HopsOf(f), HopsOf(f)[0].response.answers;
    forall n | 0 <= n < |hops|
      ensures hops[n].response.answers == found && (n > 0 ==> hops[n].ending.CacheHit?)
    {
      LaterHopRepeats(f, e, n);
    }
    ChasingOnlyAppends(f);
    AnswersAreCopies(f.last.answers, hops, found, 1);
    AnswersAreCopies(f.last.answers, hops, found, |hops|);
    CopiesHaveType(f.last.answers, found, 1, f.query.question.value.qtype);
    CopiesHaveType(f.last.answers, found, |hops|, f.query.question.value.qtype);
    AnotherHopIff(f, 1);
    if |hops| < MAX_CNAME_HOPS {
      AnotherHopIff(f, |hops|);
    }
  }

  lemma AnsweredResponse(f: Frame)
    requires ValidFrame(f) && f.ending.Answered?
    ensures f.query.question.Some? && f.response.answers == FinalAnswers(f)
  {
    hide ValidRounds, Threads, BeforeStoring, AfterStoring, FindAt, KeyOf, Chased, FinalAnswers;
  }

  /** The frame stored an entry for its own question. */
  ghost predicate Stores(f: Frame, e: Entry)
    requires f.query.question.Some?
  {
    && StoreOp(f).Some? && Offer(StoreOp(f).value) == Some((KeyOf(f.query), e))
    && !e.Expired(f.storedAt)
  }

  lemma StoredEntryIsInPlace(f: Frame, e: Entry)
    requires ValidFrame(f) && f.query.question.Some? && !f.ending.CacheHit? && Stores(f, e)
    ensures KeyOf(f.query) in f.after.entries && f.after.entries[KeyOf(f.query)] == e
  {
    hide ValidRounds, ValidEnding, Threads, BeforeStoring, FinalAnswers, NegativeTtl, KeyOf, FindAt;
    assert f.after == AfterStoring(f, BeforeStoring(f));
  }

  lemma AnsweredMatches(f: Frame, e: Entry)
    requires f.query.question.Some? && f.ending.Answered? && ValidEnding(f) && Stores(f, e)
    ensures CachedResponse(f.query, e).answers == f.response.answers && f.response.answers != []
  {
  }

  lemma NegativeMatches(f: Frame, e: Entry)
    requires f.query.question.Some? && !f.ending.Answered? && ValidEnding(f) && Stores(f, e)
    requires EndsInRound(f.ending) ==> IsReferral(f.last)
    ensures CachedResponse(f.query, e).answers == [] == f.response.answers
    ensures CachedResponse(f.query, e).header.GetResultCode() == f.response.header.GetResultCode()
  {
    hide KeyOf, NegativeTtl, HopsOf;
    assert e.result != POSITIVE;
    CachedResponseAnswers(f.query, e);
    AnsweringAnswers(f.last.header, f.query.header);
    assert f.response == Finalized(f.last, f.query);
  }

  lemma StoredEntryMatchesResponse(f: Frame, e: Entry)
    requires ValidFrame(f) && f.query.question.Some? && !f.ending.CacheHit? && Stores(f, e)
    ensures CachedResponse(f.query, e).answers == f.response.answers
    ensures f.response.answers == [] ==>
      CachedResponse(f.query, e).header.GetResultCode() == f.response.header.GetResultCode()
  {
    hide Threads, BeforeStoring, AfterStoring, FinalAnswers, NegativeTtl, KeyOf, FindAt, MinTtl, ValidEnding,
      CachedResponse, ValidRounds, IsReferral;
    assert ResolvedFrame(f);
    if f.ending.Answered? {
      AnsweredMatches(f, e);
    } else {
      if EndsInRound(f.ending) {
        UnfinishedHasRound(f);
        LastOfUnfinished(f);
      }
      NegativeMatches(f, e);
    }
  }

  lemma UnfinishedHasRound(f: Frame)
    requires f.query.question.Some? && ValidEnding(f) && EndsInRound(f.ending)
    ensures f.rounds != []
  {
  }

  lemma LastOfUnfinished(f: Frame)
    requires EndsInRound(f.ending) && f.rounds != [] && ValidRounds(f, CompletedRounds(f))
    ensures IsReferral(f.last)
  {
    hide RootServers.RootsAsked, CandidatesFrom, Replies, IsReferral, FreshOnes;
    var k := |f.rounds| - 1;
    assert ValidRound(f.query, f.nested, f.rounds[k], Queried(f.rounds, k));
  }

  /** Lookup and cache agree.  After a lookup that stored an entry for its question, a lookup of
      the same name in any letter case and the same type, made before the entry expires and with
      the entry still in place, is answered from the cache with exactly the same answers, and
      with the same result code if there are none. */
  lemma LookupAndCacheAgree(f: Frame, g: Frame, e: Entry)
    requires ValidFrame(f) && f.query.question.Some? && !f.ending.CacheHit? && Stores(f, e)
    requires ValidFrame(g) && g.query.question.Some? && !g.ending.OutOfFuel?
    requires SameSpelling(f.query.question.value.name, g.query.question.value.name)
    requires f.query.question.value.qtype == g.query.question.value.qtype
    requires Untouched(KeyOf(f.query), f.after.entries, g.before.entries)
    requires g.checkedAt < e.expiration
    ensures g.ending.CacheHit? && g.response.answers == f.response.answers
    ensures f.response.answers == [] ==> g.response.header.GetResultCode() == f.response.header.GetResultCode()
  {
    hide ValidFrame, Stores, CachedResponse, KeyOf, SameSpelling;
    StoredEntryIsInPlace(f, e);
    StoredEntryMatchesResponse(f, e);
    SameQuestionSameKey(f.query, g.query);
    CachedEntryIsServed(g, e);
    SameEntrySameAnswers(f.query, g.query, e);
  }

  /** Nothing happened to the key between the two caches. */
  ghost predicate Untouched(k: Key, m: map<Key, Entry>, n: map<Key, Entry>) {
    (k in m <==> k in n) && (k in m ==> m[k] == n[k])
  }

  lemma SameQuestionSameKey(p: Packet, q: Packet)
    requires p.question.Some? && q.question.Some?
    ensures KeyOf(p) == KeyOf(q) <==>
      p.question.value.qtype == q.question.value.qtype && SameSpelling(p.question.value.name, q.question.value.name)
  {
    SameKeyUpToCase(p.question.value.name, q.question.value.name, p.question.value.qtype, q.question.value.qtype);
  }

  lemma SameEntrySameAnswers(p: Packet, q: Packet, e: Entry)
    ensures CachedResponse(p, e).answers == CachedResponse(q, e).answers
    ensures CachedResponse(p, e).header.GetResultCode() == CachedResponse(q, e).header.GetResultCode()
  {
  }

  /** An unexpired entry for the question is what the lookup answers from, before anything else. */
  lemma CachedEntryIsServed(g: Frame, e: Entry)
    requires ValidFrame(g) && g.query.question.Some? && !g.ending.OutOfFuel?
    requires FindAt(g.before.entries, KeyOf(g.query), g.checkedAt) == Some(e)
    ensures g.ending.CacheHit? && g.response == CachedResponse(g.query, e)
  {
  }

  // ----- Whole trees of lookups -----

  /** Lookup `g` is `f` itself or one of the lookups it made, at any depth. */
  ghost predicate Inside(g: Frame, f: Frame)
    decreases f
  {
    g == f || exists n :: 0 <= n < |f.nested| && Inside(g, f.nested[n])
  }

  /** Lookup `g` is one of those that `f` made, at any depth. */
  ghost predicate MadeBy(g: Frame, f: Frame) {
    exists n :: 0 <= n < |f.nested| && Inside(g, f.nested[n])
  }

  /** What is proved of valid frames holds of every lookup at every depth. */
  lemma {:induction false} InsideIsValid(g: Frame, f: Frame)
    requires ValidFrame(f) && Inside(g, f)
    ensures ValidFrame(g)
    decreases f
  {
    if g != f {
      var n :| 0 <= n < |f.nested| && Inside(g, f.nested[n]);
      InsideIsValid(g, f.nested[n]);
    }
  }

  /** Frame `g` stored entry `e` under key `k`. */
  ghost predicate StoredBy(g: Frame, k: Key, e: Entry) {
    ValidFrame(g) && g.query.question.Some? && !g.ending.CacheHit? && KeyOf(g.query) == k && Stores(g, e)
  }

  ghost predicate KeptFrom(m: map<Key, Entry>, k: Key, e: Entry) {
    k in m && m[k] == e
  }

  /** Whatever is in the cache after a lookup was there before, or was stored under its key by a
      lookup of exactly that question inside this one. */
  lemma {:induction false} EntryOrigin(f: Frame, k: Key, e: Entry)
    requires ValidFrame(f) && KeptFrom(f.after.entries, k, e)
    ensures KeptFrom(f.before.entries, k, e) || exists g :: Inside(g, f) && StoredBy(g, k, e)
    decreases f, |f.nested| + 1
  {
    hide ValidEnding, ValidRounds, FinalAnswers, NegativeTtl, CachedResponse;
    if f.query.question.Some? && !f.ending.OutOfFuel? && !f.ending.CacheHit? && !f.ending.NoQuestion? {
      StoringStep(f, k, e);
      if StoredBy(f, k, e) {
        assert Inside(f, f);
      } else {
        assert f.nested[..|f.nested|] == f.nested;
        NestedOrigin(f, Opening(f), |f.nested|, BeforeStoring(f), k, e);
        OpeningKeeps(f, k, e);
        assert forall g :: MadeBy(g, f) ==> Inside(g, f);
      }
    } else if f.ending.CacheHit? {
      OpeningKeeps(f, k, e);
    }
  }

  lemma OpeningKeeps(f: Frame, k: Key, e: Entry)
    requires f.query.question.Some?
    ensures KeptFrom(Opening(f).entries, k, e) ==> KeptFrom(f.before.entries, k, e)
  {
  }

  lemma StoringStep(f: Frame, k: Key, e: Entry)
    requires ValidFrame(f) && f.query.question.Some? && KeptFrom(f.after.entries, k, e)
    requires !f.ending.OutOfFuel? && !f.ending.CacheHit? && !f.ending.NoQuestion?
    ensures StoredBy(f, k, e) || KeptFrom(BeforeStoring(f).entries, k, e)
  {
    hide ValidEnding, ValidRounds, Threads, FinalAnswers, NegativeTtl, BeforeStoring, KeyOf, FindAt;
    assert f.after == AfterStoring(f, BeforeStoring(f));
  }

  lemma {:induction false} NestedOrigin(f: Frame, s: Store, n: nat, t: Store, k: Key, e: Entry)
    requires n <= |f.nested| && Threads(s, f.nested[..n], t) && KeptFrom(t.entries, k, e)
    requires forall i :: 0 <= i < |f.nested| ==> ValidFrame(f.nested[i])
    ensures KeptFrom(s.entries, k, e) || exists g :: MadeBy(g, f) && StoredBy(g, k, e)
    decreases f, n
  {
    hide ValidFrame, StoredBy;
    if n > 0 {
      var last := f.nested[n - 1];
      assert f.nested[..n][..n - 1] == f.nested[..n - 1];
      EntryOrigin(last, k, e);
      if KeptFrom(last.before.entries, k, e) {
        NestedOrigin(f, s, n - 1, last.before, k, e);
      } else {
        var g :| Inside(g, last) && StoredBy(g, k, e);
        assert MadeBy(g, f);
      }
    }
  }

  /** The ways a lookup fails: no response, an error other than NXDOMAIN without answers, or
      sixteen rounds used up. */
  ghost predicate Fails(f: Frame) {
    || f.ending.NotResponse? || f.ending.Exhausted?
    || (f.ending.Failed? && f.last.header.GetResultCode() != ResultCode.NXDOMAIN)
  }

  lemma MissedKeyIsGone(f: Frame)
    requires f.query.question.Some? && FindAt(f.before.entries, KeyOf(f.query), f.checkedAt).None?
    ensures KeyOf(f.query) !in Opening(f).entries
  {
  }

  /** A lookup that fails stores nothing under its own key.  Its check for a cached answer found
      none, and what is there afterwards was put there by a lookup of the same question that it
      made on the way; so nothing is, if it made none. */
  lemma FailuresStoreNothing(f: Frame)
    requires ValidFrame(f) && f.query.question.Some? && Fails(f)
    ensures forall e :: KeptFrom(f.after.entries, KeyOf(f.query), e) ==>
      exists g :: MadeBy(g, f) && StoredBy(g, KeyOf(f.query), e)
    ensures (forall g :: MadeBy(g, f) && g.query.question.Some? ==> KeyOf(g.query) != KeyOf(f.query)) ==>
      KeyOf(f.query) !in f.after.entries
  {
    hide ValidRounds, ValidEnding, FindAt, KeyOf, StoredBy, MadeBy, Opening, BeforeStoring;
    MissedKeyIsGone(f);
    assert f.after == BeforeStoring(f);
    assert f.nested[..|f.nested|] == f.nested;
    forall e | KeptFrom(f.after.entries, KeyOf(f.query), e)
      ensures exists g :: MadeBy(g, f) && StoredBy(g, KeyOf(f.query), e)
    {
      NestedOrigin(f, Opening(f), |f.nested|, BeforeStoring(f), KeyOf(f.query), e);
    }
    if KeyOf(f.query) in f.after.entries {
      var e := f.after.entries[KeyOf(f.query)];
      assert KeptFrom(f.after.entries, KeyOf(f.query), e);
      var g :| MadeBy(g, f) && StoredBy(g, KeyOf(f.query), e);
      StorerAsked(g, KeyOf(f.query), e);
    }
  }

  lemma StorerAsked(g: Frame, k: Key, e: Entry)
    requires StoredBy(g, k, e)
    ensures g.query.question.Some? && KeyOf(g.query) == k
  {
  }

  /** What a lookup at any depth finds in the cache was there before the whole, or was stored on the way. */
  lemma {:induction false} InnerOrigin(f: Frame, h: Frame, k: Key, e: Entry)
    requires ValidFrame(f) && Inside(h, f) && KeptFrom(h.before.entries, k, e)
    ensures KeptFrom(f.before.entries, k, e) || exists g :: Inside(g, f) && StoredBy(g, k, e)
    decreases f
  {
    hide ResolvedFrame, StoredBy, KeptFrom, Opening;
    if h != f {
      var n :| 0 <= n < |f.nested| && Inside(h, f.nested[n]);
      InnerOrigin(f.nested[n], h, k, e);
      if KeptFrom(f.nested[n].before.entries, k, e) {
        NestedIsThreaded(f, n);
        NestedOrigin(f, Opening(f), n, f.nested[n].before, k, e);
        OpeningKeeps(f, k, e);
      }
      assert forall g :: MadeBy(g, f) ==> Inside(g, f);
      assert forall g :: Inside(g, f.nested[n]) ==> MadeBy(g, f);
    }
  }

  lemma NestedIsThreaded(f: Frame, n: nat)
    requires ValidFrame(f) && n < |f.nested|
    ensures f.query.question.Some? && Threads(Opening(f), f.nested[..n], f.nested[n].before)
  {
    hide ValidRounds, ValidEnding, BeforeStoring, AfterStoring, FindAt, Opening;
    ThreadsAdjacent(Opening(f), f.nested, BeforeStoring(f), n);
  }

  /** The lookup made for some client request `m` of the first `n`, or one inside it, stored the entry. */
  ghost predicate StoredEarlier(lookups: seq<Frame>, n: nat, k: Key, e: Entry)
    requires n <= |lookups|
  {
    exists m, g :: 0 <= m < n && Inside(g, lookups[m]) && StoredBy(g, k, e)
  }

  lemma {:induction false} SequenceOrigin(lookups: seq<Frame>, n: nat, t: Store, k: Key, e: Entry)
    requires n <= |lookups| && Threads(EMPTY_STORE, lookups[..n], t) && KeptFrom(t.entries, k, e)
    requires forall i :: 0 <= i < |lookups| ==> ValidFrame(lookups[i])
    ensures StoredEarlier(lookups, n, k, e)
    decreases n
  {
    hide ValidFrame, StoredBy;
    var last := lookups[n - 1];
    assert lookups[..n][..n - 1] == lookups[..n - 1];
    EntryOrigin(last, k, e);
    if KeptFrom(last.before.entries, k, e) {
      SequenceOrigin(lookups, n - 1, last.before, k, e);
    } else {
      var g :| Inside(g, last) && StoredBy(g, k, e);
    }
  }

  /** Nothing is served from the cache but what was looked up.  In any sequence of lookups that
      starts with an empty cache, whatever one at any depth is answered from the cache, in lookup
      `n` of the sequence, is the answer list (and the result code, if that is empty) of a lookup
      of the same question, at any depth of an earlier one or of lookup `n` itself; and it is
      served within the time that answer may be kept. */
  lemma ServedFromLookup(lookups: seq<Frame>, t: Store, n: nat, h: Frame) returns (m: nat, g: Frame)
    requires Threads(EMPTY_STORE, lookups, t) && forall i :: 0 <= i < |lookups| ==> ValidFrame(lookups[i])
    requires n < |lookups| && Inside(h, lookups[n]) && h.ending.CacheHit?
    ensures m <= n && Inside(g, lookups[m]) && SameQuestion(g, h) && !g.ending.CacheHit?
    ensures h.response.answers == g.response.answers
    ensures g.response.answers == [] ==> h.response.header.GetResultCode() == g.response.header.GetResultCode()
    ensures KeptUntil(g, h.checkedAt)
  {
    hide ValidFrame, Stores, CachedResponse, KeyOf, SameSpelling;
    InsideIsValid(h, lookups[n]);
    var e := HitEntry(h);
    InnerOrigin(lookups[n], h, KeyOf(h.query), e);
    if KeptFrom(lookups[n].before.entries, KeyOf(h.query), e) {
      ThreadsAdjacent(EMPTY_STORE, lookups, t, n);
      SequenceOrigin(lookups, n, lookups[n].before, KeyOf(h.query), e);
      m, g :| 0 <= m < n && Inside(g, lookups[m]) && StoredBy(g, KeyOf(h.query), e);
    } else {
      m := n;
      g :| Inside(g, lookups[n]) && StoredBy(g, KeyOf(h.query), e);
    }
    StoredEntryMatchesResponse(g, e);
    SameEntrySameAnswers(g.query, h.query, e);
    StoredLifetime(g, e);
    SameKeySameQuestion(g, h);
  }

  /** The entry a lookup is answered from. */
  lemma HitEntry(h: Frame) returns (e: Entry)
    requires ValidFrame(h) && h.ending.CacheHit?
    ensures h.query.question.Some? && KeptFrom(h.before.entries, KeyOf(h.query), e)
    ensures h.checkedAt < e.expiration && h.response == CachedResponse(h.query, e)
  {
    e := FindAt(h.before.entries, KeyOf(h.query), h.checkedAt).value;
  }

  ghost predicate SameQuestion(g: Frame, h: Frame) {
    && g.query.question.Some? && h.query.question.Some?
    && SameSpelling(g.query.question.value.name, h.query.question.value.name)
    && g.query.question.value.qtype == h.query.question.value.qtype
  }

  lemma SameKeySameQuestion(g: Frame, h: Frame)
    requires g.query.question.Some? && h.query.question.Some? && KeyOf(g.query) == KeyOf(h.query)
    ensures SameQuestion(g, h)
  {
    SameQuestionSameKey(g.query, h.query);
  }

  /** Time `now` is within the minute, and within every nonzero TTL, that answers are kept after
      they were made; or within the negative TTL, if there are none. */
  ghost predicate KeptUntil(g: Frame, now: nat) {
    if g.ending.Answered? then
      && now < g.made + 60 * SECOND
      && forall i :: 0 <= i < |g.response.answers| && g.response.answers[i].ttl > 0 ==>
           now < g.made + g.response.answers[i].ttl * SECOND
    else
      now < g.made + NegativeTtl(g.last.authorities) * SECOND
  }

  /** How long a stored entry lives.  Answers are offered with a TTL argument of 60, so they are
      kept for a minute at most whatever their records say, and no longer than any nonzero TTL
      among them; negative answers for the negative TTL of their response; all for a second at least. */
  lemma StoredLifetime(f: Frame, e: Entry)
    requires ValidFrame(f) && f.query.question.Some? && !f.ending.CacheHit? && Stores(f, e)
    ensures f.checkedAt <= f.made <= f.storedAt < e.expiration && f.made + SECOND <= e.expiration
    ensures if f.ending.Answered? then
        && e.expiration <= f.made + 60 * SECOND
        && (forall i :: 0 <= i < |f.response.answers| && f.response.answers[i].ttl > 0 ==>
             e.expiration <= f.made + f.response.answers[i].ttl * SECOND)
      else
        e.expiration == f.made + NegativeTtl(f.last.authorities) * SECOND
  {
    hide ValidRounds, Threads, FindAt, KeyOf, NegativeTtl, FinalAnswers;
    assert ResolvedFrame(f) && Timely(f);
    MadeEntriesLiveASecond(StoreOp(f).value);
    NegativeTtlIsPositive(f.last.authorities);
    if f.ending.Answered? {
      var answers := FinalAnswers(f);
      assert f.response.answers == answers;
      MinTtlIsLeast(60, answers);
      TtlScales(MinTtl(60, answers), 60);
      forall i | 0 <= i < |answers| && answers[i].ttl > 0
        ensures e.expiration <= f.made + answers[i].ttl * SECOND
      {
        TtlScales(MinTtl(60, answers), answers[i].ttl);
      }
    }
  }

  /** Stored answers live exactly as long as their least nonzero TTL if that is a minute at most,
      and are dropped before otherwise. */
  lemma AnswersLiveTheirTtlIff(f: Frame, e: Entry, i: nat)
    requires ValidFrame(f) && f.ending.Answered? && f.query.question.Some? && Stores(f, e)
    requires i < |f.response.answers| && f.response.answers[i].ttl > 0
    requires forall j :: 0 <= j < |f.response.answers| && f.response.answers[j].ttl > 0 ==>
      f.response.answers[i].ttl <= f.response.answers[j].ttl
    ensures e.expiration == f.made + f.response.answers[i].ttl * SECOND <==> f.response.answers[i].ttl <= 60
    ensures e.expiration <= f.made + f.response.answers[i].ttl * SECOND
  {
    hide ValidFrame, FinalAnswers, KeyOf;
    AnsweredResponse(f);
    MinTtlIsLeast(60, f.response.answers);
  }

  lemma {:induction false} NegativeTtlIsPositive(rs: seq<Record>)
    ensures NegativeTtl(rs) > 0
  {
    if rs != [] {
      NegativeTtlIsPositive(rs[1..]);
    }
  }
}
