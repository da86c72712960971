/**
 What a lookup does, told from what it saw: the datagrams that arrived, the sections and codes of
 the packets in them, and nothing that the resolver computes on the way.
 */
module Lookups {
  import opened Wire
  import opened Names
  import opened Headers
  import opened Records
  import opened Packets
  import opened Upstream
  import opened Cache
  import opened Frames
  import RootServers

  // ----- Which replies end a round -----

  /** A response with anything in it: records, or an error. */
  ghost predicate Usable(p: Packet) {
    && p.header.IsResponse()
    && (p.answers != [] || p.authorities != [] || p.additionals != [] || p.header.GetResultCode() != NOERROR)
  }

  /** The lookup went beyond its cache. */
  ghost predicate Resolved(f: Frame) {
    ValidFrame(f) && f.ending !in {OutOfFuel, NoQuestion, CacheHit}
  }

  ghost predicate BroughtNothing(r: Round) {
    forall i :: 0 <= i < |r.replies| ==> !Usable(r.replies[i])
  }

  lemma RoundIsThere(f: Frame, k: nat)
    requires ValidFrame(f) && k < |f.rounds|
    ensures f.query.question.Some? && ResolvedFrame(f) && ValidRounds(f, CompletedRounds(f)) && ValidEnding(f)
    ensures ValidRound(f.query, f.nested, f.rounds[k], Queried(f.rounds, k))
    ensures k < CompletedRounds(f) || (k == |f.rounds| - 1 && EndsInRound(f.ending))
  {
    hide RootServers.RootsAsked, ValidRound, ValidEnding, Threads, AfterStoring, FindAt, Completed;
  }

  /** A round asks on until a reply is usable: none of its replies but possibly the last one is. */
  lemma OnlyLastReplyIsUsable(f: Frame, k: nat, i: nat)
    requires ValidFrame(f) && k < |f.rounds| && i + 1 < |f.rounds[k].replies|
    ensures !Usable(f.rounds[k].replies[i])
  {
    hide ValidFrame, ResolvedFrame, ValidRounds, ValidEnding, CandidatesFrom, IsReferral, FreshOnes;
    RoundIsThere(f, k);
    assert !Accepted(f.rounds[k].replies[i]);
  }

  lemma CompletedRoundsLink(f: Frame, k: nat)
    requires ValidRounds(f, CompletedRounds(f)) && k < CompletedRounds(f) <= |f.rounds|
    ensures Completed(f.rounds[k])
    ensures k + 1 < |f.rounds| ==> f.rounds[k + 1].response == Current(f.first, f.rounds, k + 1)
    ensures k + 1 == CompletedRounds(f) ==> f.last == Current(f.first, f.rounds, k + 1)
  {
    hide ValidRound, RootServers.RootsAsked, Queried, NestedUpTo, Current, Completed, CompletedRounds;
  }

  lemma AcceptedIsUsable(p: Packet)
    ensures Accepted(p) <==> Usable(p)
  {
  }

  /** After a completed round the lookup goes on with the last reply of that round. */
  lemma RoundGoesOn(f: Frame, k: nat)
    requires ValidRounds(f, CompletedRounds(f)) && k < CompletedRounds(f) <= |f.rounds|
    ensures f.rounds[k].replies != []
    ensures var reply := f.rounds[k].replies[|f.rounds[k].replies| - 1];
      && Usable(reply)
      && (k + 1 < |f.rounds| ==> f.rounds[k + 1].response == reply)
      && (k + 1 == CompletedRounds(f) ==> f.last == reply)
  {
    hide ValidRounds, CompletedRounds, Accepted, Usable;
    CompletedRoundsLink(f, k);
    AcceptedIsUsable(f.rounds[k].replies[|f.rounds[k].replies| - 1]);
  }

  lemma UnfinishedEnding(f: Frame)
    requires f.query.question.Some? && ValidEnding(f) && f.rounds != [] && EndsInRound(f.ending)
    ensures var r := f.rounds[|f.rounds| - 1];
      if f.ending.NoCandidates? then r.candidates == [] else Silent(r, Queried(f.rounds, |f.rounds| - 1))
  {
    hide Finalized, Silent, Queried, HopsOf, NestedUpTo;
  }

  lemma NobodyAsked(query: Packet, nested: seq<Frame>, r: Round, earlier: seq<Address>)
    requires ValidRound(query, nested, r, earlier) && r.candidates == []
    ensures r.replies == []
  {
    hide CandidatesFrom, IsReferral;
  }

  lemma UnfinishedRoundIsSilent(f: Frame, i: nat)
    requires ValidFrame(f) && f.rounds != [] && EndsInRound(f.ending) && i < |f.rounds[|f.rounds| - 1].replies|
    ensures !Usable(f.rounds[|f.rounds| - 1].replies[i])
  {
    hide ValidFrame, ResolvedFrame, ValidRounds, ValidRound, ValidEnding, Accepted, Usable, FreshOnes, Queried;
    var k := |f.rounds| - 1;
    RoundIsThere(f, k);
    UnfinishedEnding(f);
    if f.ending.NoCandidates? {
      NobodyAsked(f.query, f.nested, f.rounds[k], Queried(f.rounds, k));
    } else {
      AcceptedIsUsable(f.rounds[k].replies[i]);
    }
  }

  /** A usable reply, be it a referral, answers or an error, ends the round, and is what the lookup
      goes on with: the response the next round starts from, or the last one it saw. */
  lemma UsableReplyIsTaken(f: Frame, k: nat, i: nat)
    requires ValidFrame(f) && k < |f.rounds| && i < |f.rounds[k].replies| && Usable(f.rounds[k].replies[i])
    ensures i == |f.rounds[k].replies| - 1
    ensures if k + 1 < |f.rounds| then f.rounds[k + 1].response == f.rounds[k].replies[i]
      else f.last == f.rounds[k].replies[i] && !EndsInRound(f.ending)
  {
    hide ValidFrame, ResolvedFrame, ValidRounds, ValidRound, ValidEnding, Usable, Queried;
    RoundIsThere(f, k);
    if i < |f.rounds[k].replies| - 1 {
      OnlyLastReplyIsUsable(f, k, i);
    }
    if k == |f.rounds| - 1 && EndsInRound(f.ending) {
      UnfinishedRoundIsSilent(f, i);
      assert false;
    }
    RoundGoesOn(f, k);
  }

  /** Every round starts from a referral: the roots' response, or the usable reply of the round before. */
  lemma RoundStartsFromReferral(f: Frame, k: nat)
    requires ValidFrame(f) && k < |f.rounds|
    ensures var p := f.rounds[k].response;
      && p.header.IsResponse() && p.answers == [] && p.header.GetResultCode() == NOERROR
      && (p.authorities != [] || p.additionals != [])
    ensures k == 0 ==> f.rounds[k].response == f.first
    ensures k > 0 ==>
      var replies := f.rounds[k - 1].replies;
      replies != [] && f.rounds[k].response == replies[|replies| - 1] && Usable(f.rounds[k].response)
  {
    hide ValidFrame, ResolvedFrame, ValidEnding, CandidatesFrom, Replies, FreshOnes, RootServers.RootsAsked;
    RoundIsThere(f, k);
    if k > 0 {
      RoundGoesOn(f, k - 1);
    } else {
      assert f.rounds[0].response == Current(f.first, f.rounds, 0);
    }
  }

  /** A round in which every server stays silent asked all candidates not asked in an earlier one. */
  lemma SilentRoundAskedAll(f: Frame, a: Address)
    requires ValidFrame(f) && f.ending.AllSilent? && f.rounds != [] && a in f.rounds[|f.rounds| - 1].candidates
    ensures a in Queried(f.rounds, |f.rounds|)
  {
    hide ValidFrame, ResolvedFrame, ValidRounds, ValidRound, Replies, Accepted, Finalized, FreshOnes;
    RoundIsThere(f, |f.rounds| - 1);
    var r, earlier := f.rounds[|f.rounds| - 1], Queried(f.rounds, |f.rounds| - 1);
    FreshOnesMembers(r.candidates, earlier);
    assert r.queried == FreshOnes(r.candidates, earlier);
  }

  // ----- How a lookup ends -----

  /** Which ending it is: in the last round, if that brought nothing usable; with the sixteenth, if
      that did; and otherwise by the last response, from its QR bit, answers and result code. */
  lemma EndingIsThatOfTheResponse(f: Frame)
    requires Resolved(f)
    ensures |f.rounds| <= 16
    ensures if f.rounds != [] && BroughtNothing(f.rounds[|f.rounds| - 1]) then
        f.ending == (if f.rounds[|f.rounds| - 1].candidates == [] then NoCandidates else AllSilent)
      else if |f.rounds| == 16 then f.ending.Exhausted?
      else if !f.last.header.IsResponse() then f.ending.NotResponse?
      else if f.last.answers != [] then f.ending.Answered?
      else if f.last.header.GetResultCode() != NOERROR then f.ending.Failed?
      else f.ending.NoReferral? && f.last.authorities == f.last.additionals == []
  {
    hide ValidFrame, ResolvedFrame, ValidRounds, ValidRound, Finalized, Chased, FinalAnswers, Silent, HopsOf, BroughtNothing;
    ResolvedHasEnding(f);
    if f.rounds != [] {
      LastRoundTells(f);
    }
  }

  lemma ResolvedHasEnding(f: Frame)
    requires Resolved(f)
    ensures f.query.question.Some? && ResolvedFrame(f) && ValidRounds(f, CompletedRounds(f)) && ValidEnding(f)
    ensures |f.rounds| <= 16
  {
    hide RootServers.RootsAsked, ValidRound, ValidEnding, Threads, AfterStoring, FindAt;
  }

  lemma LastRoundTells(f: Frame)
    requires Resolved(f) && f.rounds != []
    ensures EndsInRound(f.ending) <==> BroughtNothing(f.rounds[|f.rounds| - 1])
  {
    hide ValidFrame, ResolvedFrame, ValidRounds, ValidRound, Usable, ValidEnding;
    ResolvedHasEnding(f);
    var r := f.rounds[|f.rounds| - 1];
    if EndsInRound(f.ending) {
      forall i | 0 <= i < |r.replies|
        ensures !Usable(r.replies[i])
      {
        UnfinishedRoundIsSilent(f, i);
      }
    } else {
      RoundGoesOn(f, |f.rounds| - 1);
    }
  }

  /** What a lookup that went beyond its cache returns: the last response it saw, with its result
      code, its records and its question (or the client's, if it has none); aliases only add answers. */
  lemma ReturnsWhatItSaw(f: Frame)
    requires Resolved(f)
    ensures f.response.header.IsResponse() == f.last.header.IsResponse()
    ensures f.response.header.GetResultCode() == f.last.header.GetResultCode()
    ensures f.response.authorities == f.last.authorities && f.response.additionals == f.last.additionals
    ensures if f.ending.Answered? then f.last.answers <= f.response.answers else f.response.answers == f.last.answers
    ensures f.response.question ==
      if f.last.question.None? && f.last.header.IsResponse() then f.query.question else f.last.question
  {
    hide ValidFrame, ResolvedFrame, ValidRounds, Chased, Silent, HopsOf, FinalAnswers, Answering;
    ResolvedHasEnding(f);
    AnsweringAnswers(f.last.header, f.query.header);
    if f.ending.Answered? {
      ChasingOnlyAppends(f);
    } else {
      assert f.response == Finalized(f.last, f.query) || f.response == f.last;
    }
  }

  // ----- What a lookup caches -----

  /** What becomes of a lookup that went beyond its cache: answers are kept with the least of their
      TTLs and a minute; NXDOMAIN, and NODATA when it ended without answers, for the negative TTL;
      nothing otherwise. */
  ghost predicate IsOutcome(f: Frame, e: Entry) {
    match f.ending
    case Answered =>
      && e.result == POSITIVE && e.records == f.response.answers
      && exists m: u32 :: LeastTtl(m, 60, f.response.answers) && e.expiration == f.made + m * SECOND
    case Failed => f.last.header.GetResultCode() == ResultCode.NXDOMAIN && IsNegative(f, CacheResult.NXDOMAIN, e)
    case NoReferral => IsNegative(f, NODATA, e)
    case NoCandidates => IsNegative(f, NODATA, e)
    case AllSilent => IsNegative(f, NODATA, e)
    case _ => false
  }

  ghost predicate IsNegative(f: Frame, result: CacheResult, e: Entry) {
    e.records == [] && e.result == result && e.expiration == f.made + NegativeTtl(f.last.authorities) * SECOND
  }

  lemma OutcomeIsOffered(f: Frame, e: Entry)
    requires Resolved(f)
    ensures f.query.question.Some?
    ensures IsOutcome(f, e) <==> StoreOp(f).Some? && Offer(StoreOp(f).value) == Some((KeyOf(f.query), e))
  {
    hide ValidFrame, ResolvedFrame, ValidRounds, ValidEnding, KeyOf, NegativeTtl, LeastTtl, FinalAnswers;
    ResolvedHasEnding(f);
    NegativeTtlIsPositive(f.last.authorities);
    if f.ending.Answered? {
      AnsweredResponse(f);
      AnswersRemain(f);
      forall m: u32
        ensures LeastTtl(m, 60, f.response.answers) <==> m == MinTtl(60, f.response.answers)
      {
        LeastTtlIff(m, 60, f.response.answers);
      }
      assert LeastTtl(MinTtl(60, f.response.answers), 60, f.response.answers);
    }
  }

  /** A lookup stores exactly its outcome, unless that has expired by then, and it is found under its question. */
  lemma OutcomeIsStored(f: Frame, e: Entry)
    requires Resolved(f)
    ensures f.query.question.Some? && (Stores(f, e) <==> IsOutcome(f, e) && f.storedAt < e.expiration)
    ensures IsOutcome(f, e) && f.storedAt < e.expiration ==> KeptFrom(f.after.entries, KeyOf(f.query), e)
  {
    hide ValidFrame, IsOutcome, KeyOf, StoreOp, Offer;
    OutcomeIsOffered(f, e);
    if Stores(f, e) {
      StoredEntryIsInPlace(f, e);
    }
  }

  lemma AnswersRemain(f: Frame)
    requires Resolved(f) && f.ending.Answered?
    ensures f.response.answers != []
  {
    hide ValidFrame, ResolvedFrame, ValidRounds, Chased, FinalAnswers;
    ResolvedHasEnding(f);
    ChasingOnlyAppends(f);
  }

  // ----- Which servers a round asks -----

  /** Record `j` of the additional section is the address `a` of the name server in record `i` of the authorities. */
  ghost predicate GlueAt(p: Packet, i: nat, j: nat, a: Address) {
    && i < |p.authorities| && j < |p.additionals| && p.authorities[i].data.NS?
    && SameSpelling(p.additionals[j].name, p.authorities[i].data.nameServer) && Holds(p.additionals[j], a)
  }

  /** The number of NS records among the first `n`. */
  ghost function NsBefore(rs: seq<Record>, n: nat): nat
    requires n <= |rs|
  {
    if n == 0 then 0 else NsBefore(rs, n - 1) + if rs[n - 1].data.NS? then 1 else 0
  }

  lemma {:induction false} NsBeforeGrows(rs: seq<Record>, m: nat, n: nat)
    requires m <= n <= |rs|
    ensures NsBefore(rs, m) <= NsBefore(rs, n)
    decreases n
  {
    if m < n {
      NsBeforeGrows(rs, m, n - 1);
    }
  }

  lemma {:induction false} NsBeforePrefix(rs: seq<Record>, front: seq<Record>, n: nat)
    requires front <= rs && n <= |front|
    ensures NsBefore(front, n) == NsBefore(rs, n)
  {
    if n > 0 {
      NsBeforePrefix(rs, front, n - 1);
    }
  }

  /** Record `i` is the `k`-th NS record, counted from zero. */
  ghost predicate NsAt(rs: seq<Record>, i: nat, k: nat) {
    i < |rs| && rs[i].data.NS? && NsBefore(rs, i) == k
  }

  ghost predicate HasNs(rs: seq<Record>, k: nat) {
    exists i: nat :: NsAt(rs, i, k)
  }

  /** The names collected are those of the NS records, all of them and in order. */
  lemma {:induction false} NsNamesInOrder(rs: seq<Record>)
    ensures |NsNames(rs)| == NsBefore(rs, |rs|)
    ensures forall i: nat, k: nat :: NsAt(rs, i, k) ==> k < |NsNames(rs)| && NsNames(rs)[k] == rs[i].data.nameServer
    ensures forall k: nat :: k < |NsNames(rs)| ==> HasNs(rs, k)
    decreases |rs|
  {
    if rs != [] {
      var front := rs[..|rs| - 1];
      NsNamesInOrder(front);
      forall n: nat | n <= |front|
        ensures NsBefore(front, n) == NsBefore(rs, n)
      {
        NsBeforePrefix(rs, front, n);
      }
      forall i: nat, k: nat | i < |front|
        ensures NsAt(front, i, k) <==> NsAt(rs, i, k)
      {
      }
      forall k: nat | k < |NsNames(rs)|
        ensures HasNs(rs, k)
      {
        if k < |NsNames(front)| {
          assert HasNs(front, k);
          var i: nat :| NsAt(front, i, k);
          assert NsAt(rs, i, k);
        } else {
          assert NsAt(rs, |rs| - 1, k);
        }
      }
    }
  }

  lemma GlueIsWhereItStands(p: Packet, k: nat, j: nat, a: Address)
    ensures Mentions(GluePlaces(p), k, j, a) <==> exists i: nat :: GlueAt(p, i, j, a) && NsAt(p.authorities, i, k)
  {
    hide NsNames, NsBefore;
    NsNamesInOrder(p.authorities);
    if Mentions(GluePlaces(p), k, j, a) {
      assert HasNs(p.authorities, k);
      var i: nat :| NsAt(p.authorities, i, k);
      assert GlueAt(p, i, j, a);
    }
  }

  lemma SameNsPlace(rs: seq<Record>, m: nat, n: nat)
    requires m < n <= |rs| && rs[m].data.NS?
    ensures NsBefore(rs, m) < NsBefore(rs, n)
  {
    NsBeforeGrows(rs, m + 1, n);
  }

  ghost predicate GlueIn(p: Packet, a: Address) {
    exists i: nat, j: nat :: GlueAt(p, i, j, a)
  }

  lemma GlueIff(p: Packet, a: Address)
    ensures IsGlue(p, a) <==> GlueIn(p, a)
  {
    hide IsGlue, Mentions, NsBefore;
    GlueIsMentioned(p, a);
    if IsGlue(p, a) {
      var k: nat, j: nat :| Mentions(GluePlaces(p), k, j, a);
      GlueIsWhereItStands(p, k, j, a);
    }
    if GlueIn(p, a) {
      var i: nat, j: nat :| GlueAt(p, i, j, a);
      assert NsAt(p.authorities, i, NsBefore(p.authorities, i));
      GlueIsWhereItStands(p, NsBefore(p.authorities, i), j, a);
    }
  }

  lemma AnsweredInRange(nested: seq<Frame>, start: nat, end: nat, a: Address)
    requires start <= end <= |nested|
    ensures AnsweredAddress(nested[start..end], a) <==>
      exists j: nat :: start <= j < end && HasAddress(nested[j].response.answers, a)
  {
    hide HasAddress;
    var asked := nested[start..end];
    if AnsweredAddress(asked, a) {
      var j: nat :| j < |asked| && HasAddress(asked[j].response.answers, a);
      assert asked[j] == nested[start + j];
    }
    if exists j: nat :: start <= j < end && HasAddress(nested[j].response.answers, a) {
      var j: nat :| start <= j < end && HasAddress(nested[j].response.answers, a);
      assert asked[j - start] == nested[j];
    }
  }

  /** Whom round `k` may ask: the addresses the response gives for its name servers, if it gives any
      at all; otherwise those that nested lookups found. */
  lemma CandidatesAreTheServers(f: Frame, k: nat, a: Address)
    requires ValidFrame(f) && k < |f.rounds|
    ensures var r := f.rounds[k];
      if exists b :: GlueIn(r.response, b) then r.start == r.end && (a in r.candidates <==> GlueIn(r.response, a))
      else a in r.candidates <==>
        exists j: nat :: r.start <= j < r.end <= |f.nested| && HasAddress(f.nested[j].response.answers, a)
  {
    hide ValidFrame, ResolvedFrame, ValidRounds, ValidEnding, Replies, FreshOnes, IsGlue, GlueIn, Mentions, NsNames,
      HasAddress, AskedForAll, FirstBefore, AnsweredAddress;
    RoundIsThere(f, k);
    var r := f.rounds[k];
    var asked := f.nested[r.start..r.end];
    forall b
      ensures IsGlue(r.response, b) <==> GlueIn(r.response, b)
    {
      GlueIff(r.response, b);
    }
    if HasGlue(r.response) {
      GlueIsMentioned(r.response, a);
    } else {
      AnswerIsMentioned(asked, a);
      AnsweredInRange(f.nested, r.start, r.end, a);
    }
  }

  /** Without glue, both address types of every name server are looked up, one after the other. */
  lemma EveryServerIsLookedUp(f: Frame, k: nat, i: nat)
    requires ValidFrame(f) && k < |f.rounds| && !exists b :: GlueIn(f.rounds[k].response, b)
    requires i < |f.rounds[k].response.authorities| && f.rounds[k].response.authorities[i].data.NS?
    ensures var r, name := f.rounds[k], f.rounds[k].response.authorities[i].data.nameServer;
      exists j: nat :: r.start <= j < j + 1 < r.end <= |f.nested|
        && AsksFor(f.nested[j], name, 1) && AsksFor(f.nested[j + 1], name, 28)
  {
    hide ValidFrame, ResolvedFrame, ValidRounds, ValidEnding, Replies, FreshOnes, IsGlue, GlueIn, Collected, NsNames, NsBefore;
    RoundIsThere(f, k);
    var r := f.rounds[k];
    var asked := f.nested[r.start..r.end];
    forall b
      ensures IsGlue(r.response, b) <==> GlueIn(r.response, b)
    {
      GlueIff(r.response, b);
    }
    NsNamesInOrder(r.response.authorities);
    var n := NsBefore(r.response.authorities, i);
    assert NsAt(r.response.authorities, i, n);
    assert asked[2 * n] == f.nested[r.start + 2 * n] && asked[2 * n + 1] == f.nested[r.start + 2 * n + 1];
  }

  /** Glue is asked in the order of the authority section, and for each name server in the order of
      the additional section. */
  lemma GlueIsAskedInOrder(f: Frame, k: nat, x: nat, y: nat)
    requires ValidFrame(f) && k < |f.rounds| && x < y < |f.rounds[k].candidates|
    requires exists b :: GlueIn(f.rounds[k].response, b)
    ensures var p, a, b := f.rounds[k].response, f.rounds[k].candidates[x], f.rounds[k].candidates[y];
      exists i: nat, j: nat ::
        GlueAt(p, i, j, a) && forall i': nat, j': nat :: GlueAt(p, i', j', b) ==> Earlier(i, j, i', j')
  {
    hide ValidFrame, ResolvedFrame, ValidRounds, ValidEnding, Replies, FreshOnes, IsGlue, NsNames, NsBefore, Mentions, GlueAt;
    RoundIsThere(f, k);
    var p, a, b := f.rounds[k].response, f.rounds[k].candidates[x], f.rounds[k].candidates[y];
    var c :| GlueIn(p, c);
    GlueIff(p, c);
    assert FirstBefore(GluePlaces(p), a, b);
    FirstGlueFirst(p, a, b);
  }

  lemma FirstGlueFirst(p: Packet, a: Address, b: Address)
    requires FirstBefore(GluePlaces(p), a, b)
    ensures exists i: nat, j: nat ::
      GlueAt(p, i, j, a) && forall i': nat, j': nat :: GlueAt(p, i', j', b) ==> Earlier(i, j, i', j')
  {
    hide NsNames, NsBefore, Mentions;
    var k: nat, j: nat :| Mentions(GluePlaces(p), k, j, a)
      && forall k': nat, j': nat :: Mentions(GluePlaces(p), k', j', b) ==> Earlier(k, j, k', j');
    GlueIsWhereItStands(p, k, j, a);
    var i: nat :| GlueAt(p, i, j, a) && NsAt(p.authorities, i, k);
    forall i': nat, j': nat | GlueAt(p, i', j', b)
      ensures Earlier(i, j, i', j')
    {
      var k' := NsBefore(p.authorities, i');
      assert NsAt(p.authorities, i', k');
      GlueIsWhereItStands(p, k', j', b);
      assert Earlier(k, j, k', j');
      if i' < i { SameNsPlace(p.authorities, i', i); }
    }
  }

  lemma {:induction false} FreshOnesKeepOrder(candidates: seq<Address>, earlier: seq<Address>, i: nat, j: nat)
    returns (x: nat, y: nat)
    requires i < j < |FreshOnes(candidates, earlier)|
    ensures x < y < |candidates|
    ensures candidates[x] == FreshOnes(candidates, earlier)[i] && candidates[y] == FreshOnes(candidates, earlier)[j]
    decreases |candidates|
  {
    var front := candidates[..|candidates| - 1];
    if j < |FreshOnes(front, earlier)| {
      x, y := FreshOnesKeepOrder(front, earlier, i, j);
    } else {
      FreshOnesMembers(front, earlier);
      assert FreshOnes(front, earlier)[i] in FreshOnes(front, earlier);
      x :| 0 <= x < |front| && front[x] == FreshOnes(front, earlier)[i];
      y := |candidates| - 1;
    }
  }

  /** Candidates are asked in order: when one is asked, those before it were, now or in an earlier round. */
  lemma CandidatesAreAskedInOrder(f: Frame, k: nat, x: nat, y: nat)
    requires ValidFrame(f) && k < |f.rounds| && x < y < |f.rounds[k].candidates|
    requires f.rounds[k].candidates[y] in f.rounds[k].queried
    ensures f.rounds[k].candidates[x] in f.rounds[k].queried || f.rounds[k].candidates[x] in Queried(f.rounds, k)
  {
    hide ValidFrame, ResolvedFrame, ValidRounds, ValidEnding, Replies, CandidatesFrom, FreshOnes, Queried;
    RoundIsThere(f, k);
    var r, earlier := f.rounds[k], Queried(f.rounds, k);
    var unseen := FreshOnes(r.candidates, earlier);
    FreshOnesMembers(r.candidates, earlier);
    if r.candidates[x] !in earlier && r.candidates[x] !in r.queried {
      assert r.candidates[x] in unseen;
      var i :| 0 <= i < |unseen| && unseen[i] == r.candidates[x];
      var j :| 0 <= j < |r.queried| && r.queried[j] == r.candidates[y];
      assert unseen[j] == r.queried[j];
      var u, v := FreshOnesKeepOrder(r.candidates, earlier, j, i);
      assert false;
    }
  }

  // ----- Where responses come from -----

  /** One of the exchanges of the lookup, with a root server or a name server, brought the packet. */
  ghost predicate WasReceived(f: Frame, p: Packet) {
    || (exists k :: 0 <= k < |f.log| && Brings(f.query, f.log[k].exchange, p))
    || (exists k, i :: 0 <= k < |f.rounds| && 0 <= i < |f.rounds[k].contacts|
         && Brings(f.query, f.rounds[k].contacts[i].exchange, p))
  }

  /** The reply of a round is what the exchange with that server brought, or is no response. */
  lemma ReplyWasReceived(f: Frame, k: nat, i: nat)
    requires ValidFrame(f) && k < |f.rounds| && i < |f.rounds[k].replies|
    ensures |f.rounds[k].contacts| == |f.rounds[k].replies| == |f.rounds[k].queried|
    ensures f.rounds[k].contacts[i].address == f.rounds[k].queried[i]
    ensures var reply, e := f.rounds[k].replies[i], f.rounds[k].contacts[i].exchange;
      if reply.header.IsResponse() then Brings(f.query, e, reply) else forall p :: !Brings(f.query, e, p)
  {
    hide ValidFrame, ResolvedFrame, ValidRounds, ValidEnding, CandidatesFrom, FreshOnes, Brings, ResponseTo, IsReferral;
    RoundIsThere(f, k);
    var e := f.rounds[k].contacts[i].exchange;
    RootServers.BringsOrNot(f.query, e);
    if ResponseTo(f.query, e).Some? {
      ResponseToIsWellFormed(f.query, e);
    }
  }

  /** The last response a lookup saw, which it returns, arrived in answer to its own query. */
  lemma LastResponseWasReceived(f: Frame)
    requires Resolved(f) && f.last.header.IsResponse()
    ensures WasReceived(f, f.last)
  {
    hide ValidFrame, ResolvedFrame, ValidRounds, ValidEnding, Brings, RootServers.RootsAsked, Usable;
    ResolvedHasEnding(f);
    RootsWereAsked(f);
    var n := CompletedRounds(f);
    if n == 0 {
      RootServers.ResponseIsTheFirst(f.query, f.roots, f.log, f.first);
    } else {
      RoundGoesOn(f, n - 1);
      ReplyWasReceived(f, n - 1, |f.rounds[n - 1].replies| - 1);
    }
  }

  lemma RootsWereAsked(f: Frame)
    requires ValidRounds(f, CompletedRounds(f))
    ensures RootServers.RootsAsked(f.query, f.roots, f.log, f.first)
    ensures CompletedRounds(f) == 0 ==> f.last == f.first
  {
    hide ValidRound, RootServers.RootsAsked, Completed;
  }

  // ----- Answers from the cache, and aliases -----

  /** A lookup that the cache answers returns the client's question with the records of the entry
      under it, which has not expired, or NXDOMAIN if that is what the entry says; and nothing else. */
  lemma CacheHitReturnsEntry(f: Frame) returns (e: Entry)
    requires ValidFrame(f) && f.ending.CacheHit?
    ensures f.query.question.Some? && KeptFrom(f.before.entries, KeyOf(f.query), e)
    ensures f.checkedAt < e.expiration && IsCachedAnswer(f.response, f.query, e)
  {
    hide IsCachedAnswer, KeyOf, CachedResponse;
    e := HitEntry(f);
    CachedAnswerIsEntry(f.query, e);
  }

  ghost predicate IsCachedAnswer(p: Packet, query: Packet, e: Entry) {
    && AnswersFor(p.header, query.header) && p.question == query.question
    && p.answers == (if e.result == POSITIVE then e.records else []) && p.authorities == p.additionals == []
    && p.header.GetResultCode() == (if e.result == CacheResult.NXDOMAIN then ResultCode.NXDOMAIN else NOERROR)
  }

  lemma CachedAnswerIsEntry(query: Packet, e: Entry)
    ensures IsCachedAnswer(CachedResponse(query, e), query, e)
  {
    CachedResponseAnswers(query, e);
  }

  /** The alias that is followed is the first CNAME record among the answers. */
  lemma {:induction false} AliasIsTheFirst(rs: seq<Record>, i: nat)
    requires i <= |rs| && forall j :: 0 <= j < i ==> !(rs[j].rtype == 5 && rs[j].data.CNAME?)
    requires i < |rs| ==> rs[i].rtype == 5 && rs[i].data.CNAME?
    ensures AliasTarget(rs) == if i < |rs| then rs[i].data.canonicalName else []
  {
    if i > 0 {
      AliasIsTheFirst(rs[1..], i - 1);
    }
  }

  /** How many answers the first `n` hops brought. */
  ghost function Brought(hops: seq<Frame>, n: nat): nat
    requires n <= |hops|
  {
    if n == 0 then 0 else Brought(hops, n - 1) + |hops[n - 1].response.answers|
  }

  lemma {:induction false} HopAnswersStand(answers: seq<Record>, hops: seq<Frame>, n: nat)
    requires n <= |hops|
    ensures |AnswersAfter(answers, hops, n)| == |answers| + Brought(hops, n)
  {
    if n > 0 {
      HopAnswersStand(answers, hops, n - 1);
    }
  }

  lemma TailOfPrefix(front: seq<Record>, rs: seq<Record>, all: seq<Record>)
    requires front + rs <= all
    ensures |front| <= |all| && rs <= all[|front|..]
  {
    assert all[|front|..][..|rs|] == (front + rs)[|front|..] == rs;
  }

  lemma HopIsJoined(answers: seq<Record>, hops: seq<Frame>, n: nat)
    requires n < |hops|
    ensures var start, all := |answers| + Brought(hops, n), AnswersAfter(answers, hops, |hops|);
      start <= |all| && hops[n].response.answers <= all[start..]
  {
    HopAnswersStand(answers, hops, n);
    AnswersGrow(answers, hops, n + 1, |hops|);
    TailOfPrefix(AnswersAfter(answers, hops, n), hops[n].response.answers, AnswersAfter(answers, hops, |hops|));
  }

  /** The answers returned are those of the last response and after them those of each hop, in
      order, and nothing else. */
  lemma AnswersAreJoined(f: Frame, n: nat)
    requires ValidFrame(f) && f.ending.Answered?
    ensures f.last.answers <= f.response.answers
    ensures |f.response.answers| == |f.last.answers| + Brought(HopsOf(f), |HopsOf(f)|)
    ensures n < |HopsOf(f)| ==>
      var start := |f.last.answers| + Brought(HopsOf(f), n);
      start <= |f.response.answers| && HopsOf(f)[n].response.answers <= f.response.answers[start..]
  {
    hide ValidFrame, HopsOf, AnswersAfter, Brought;
    AnsweredResponse(f);
    ChasingOnlyAppends(f);
    HopAnswersStand(f.last.answers, HopsOf(f), |HopsOf(f)|);
    if n < |HopsOf(f)| {
      HopIsJoined(f.last.answers, HopsOf(f), n);
    }
  }
}
