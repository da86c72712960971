/**
 The recursive resolver: cache check, root servers, referral rounds, alias chasing, negative
 caching.  Each call is tied to a valid `Frame`, so the lemmas of `Frames` hold of it.

 The recursion of the original has no bound; here `fuel` bounds its depth, and a call without
 fuel returns the empty packet.  Nothing depends on how much fuel there is.
 */
module Resolver {
  import opened Wire
  import opened Names
  import opened Headers
  import opened Records
  import opened Packets
  import opened Upstream
  import RootServers
  import opened Cache
  import opened Frames

  /** What is known to be parsed: every record of the packet is well formed. */
  ghost predicate SectionsWellFormed(p: Packet) {
    AllWellFormed(p.answers) && AllWellFormed(p.authorities) && AllWellFormed(p.additionals)
  }

  ghost predicate EntriesWellFormed(m: map<Key, Entry>) {
    forall k :: k in m ==> AllWellFormed(m[k].records)
  }

  /** A response whose records are well formed, and its question too if the query's is: it reads
      back if it prints. */
  ghost predicate Sound(response: Packet, query: Packet) {
    SectionsWellFormed(response) && (QuestionReadable(query.question) ==> QuestionReadable(response.question))
  }

  lemma StepKeepsWellFormed(s: Store, op: Op, now: nat)
    requires EntriesWellFormed(s.entries)
    requires op.Get? || (op.PutRecords? && AllWellFormed(op.records)) || op.PutNegative?
    ensures EntriesWellFormed(Step(s, op, now).entries)
  {
  }

  lemma FinalizedIsSound(response: Packet, query: Packet)
    requires Sound(response, query)
    ensures Sound(Finalized(response, query), query)
  {
  }

  // ----- A frame under way -----

  /** Valid nested lookups that take the cache from one state to another. */
  ghost predicate Nested(s: Store, frames: seq<Frame>, t: Store) {
    Threads(s, frames, t) && forall n :: 0 <= n < |frames| ==> ValidFrame(frames[n])
  }

  /** All rounds so far are complete, and the cache is at `s`. */
  ghost predicate InProgress(f: Frame, s: Store) {
    && f.query.question.Some?
    && FindAt(f.before.entries, KeyOf(f.query), f.checkedAt).None?
    && Nested(Opening(f), f.nested, s)
    && ValidRounds(f, |f.rounds|)
    && NestedUpTo(f.rounds, |f.rounds|) == |f.nested|
  }

  lemma {:induction false} ThreadsJoin(s: Store, a: seq<Frame>, m: Store, b: seq<Frame>, t: Store)
    requires Threads(s, a, m) && Threads(m, b, t)
    ensures Threads(s, a + b, t)
    decreases |b|
  {
    if b == [] {
      assert a + b == a;
    } else {
      ThreadsJoin(s, a, m, b[..|b| - 1], b[|b| - 1].before);
      assert (a + b)[..|a + b| - 1] == a + b[..|b| - 1];
    }
  }

  lemma NestedJoin(s: Store, a: seq<Frame>, m: Store, b: seq<Frame>, t: Store)
    requires Nested(s, a, m) && Nested(m, b, t)
    ensures Nested(s, a + b, t)
  {
    hide ValidFrame;
    ThreadsJoin(s, a, m, b, t);
  }

  lemma NestedNone(s: Store)
    ensures Nested(s, [], s)
  {
  }

  lemma NestedOne(f: Frame)
    requires ValidFrame(f)
    ensures Nested(f.before, [f], f.after)
  {
    assert [f][..0] == [];
  }

  lemma RoundSurvives(query: Packet, nested: seq<Frame>, more: seq<Frame>, r: Round, earlier: seq<Address>)
    requires ValidRound(query, nested, r, earlier)
    ensures ValidRound(query, nested + more, r, earlier)
  {
    hide CandidatesFrom, Replies, IsReferral, FreshOnes, NoDuplicates;
    assert (nested + more)[r.start..r.end] == nested[r.start..r.end];
  }

  /** The rounds stay valid when nested lookups are appended. */
  lemma RoundsSurvive(f: Frame, more: seq<Frame>, completed: nat)
    requires ValidRounds(f, completed)
    ensures ValidRounds(f.(nested := f.nested + more), completed)
  {
    hide ValidRound, Completed, RootServers.RootsAsked;
    forall k | 0 <= k < |f.rounds|
      ensures ValidRound(f.query, f.nested + more, f.rounds[k], Queried(f.rounds, k))
    {
      RoundSurvives(f.query, f.nested, more, f.rounds[k], Queried(f.rounds, k));
    }
  }

  lemma {:induction false} PrefixOfRounds(rounds: seq<Round>, r: Round, first: Packet, k: nat)
    requires k <= |rounds|
    ensures Queried(rounds + [r], k) == Queried(rounds, k)
    ensures Current(first, rounds + [r], k) == Current(first, rounds, k)
    ensures NestedUpTo(rounds + [r], k) == NestedUpTo(rounds, k)
  {
    if k > 0 {
      PrefixOfRounds(rounds, r, first, k - 1);
    }
  }

  /** One more round, complete or not. */
  lemma RoundAppended(f: Frame, r: Round, completed: nat)
    requires ValidRounds(f, |f.rounds|) && |f.rounds| < MAX_REFERRALS
    requires ValidRound(f.query, f.nested, r, Queried(f.rounds, |f.rounds|))
    requires r.response == f.last && r.start == NestedUpTo(f.rounds, |f.rounds|)
    requires completed == |f.rounds| || (completed == |f.rounds| + 1 && Completed(r))
    ensures ValidRounds(f.(rounds := f.rounds + [r], last := Current(f.first, f.rounds + [r], completed)), completed)
    ensures completed == |f.rounds| ==> Current(f.first, f.rounds + [r], completed) == f.last
  {
    hide ValidRound, Completed, RootServers.RootsAsked, Queried, Current, NestedUpTo;
    forall k | 0 <= k <= |f.rounds|
      ensures Queried(f.rounds + [r], k) == Queried(f.rounds, k)
      ensures Current(f.first, f.rounds + [r], k) == Current(f.first, f.rounds, k)
      ensures NestedUpTo(f.rounds + [r], k) == NestedUpTo(f.rounds, k)
    {
      PrefixOfRounds(f.rounds, r, f.first, k);
    }
  }

  // ----- Loops of the original -----

  method CollectNsNames(authorities: seq<Record>) returns (names: seq<Name>)
    ensures names == NsNames(authorities)
  {
    names := [];
    for i := 0 to |authorities|
      invariant names == NsNames(authorities[..i])
    {
      assert authorities[..i + 1][..i] == authorities[..i];
      if authorities[i].data.NS? {
        names := names + [authorities[i].data.nameServer];
      }
    }
    assert authorities[..|authorities|] == authorities;
  }

  method AddCandidate(candidates: seq<Address>, ip: Address) returns (more: seq<Address>)
    ensures more == if ip in candidates then candidates else candidates + [ip]
  {
    more := if ip in candidates then candidates else candidates + [ip];
  }

  /** What the two nested loops have collected when they come to place `j`, `i`. */
  ghost predicate CollectedBefore(places: Places, j: nat, i: nat, candidates: seq<Address>) {
    && NoDuplicates(candidates)
    && (forall a :: a in candidates <==> exists j': nat, i': nat :: Mentions(places, j', i', a) && Earlier(j', i', j, i))
    && forall x, y :: 0 <= x < y < |candidates| ==> FirstBefore(places, candidates[x], candidates[y])
  }

  lemma MentionedHere(places: Places, j: nat, i: nat, candidates: seq<Address>, a: Address)
    requires CollectedBefore(places, j, i, candidates) && Mentions(places, j, i, a) && a !in candidates
    ensures forall b :: b in candidates ==> FirstBefore(places, b, a)
  {
    hide Mentions;
    forall b | b in candidates
      ensures FirstBefore(places, b, a)
    {
      var j': nat, i': nat :| Mentions(places, j', i', b) && Earlier(j', i', j, i);
      forall k: nat, l: nat | Mentions(places, k, l, a)
        ensures Earlier(j', i', k, l)
      {
        assert !Earlier(k, l, j, i);
      }
    }
  }

  lemma TakenHere(places: Places, j: nat, i: nat, candidates: seq<Address>, here: Option<Address>, more: seq<Address>)
    requires CollectedBefore(places, j, i, candidates)
    requires forall a :: Mentions(places, j, i, a) <==> here == Some(a)
    requires more == if here.Some? && here.value !in candidates then candidates + [here.value] else candidates
    ensures CollectedBefore(places, j, i + 1, more)
  {
    hide Mentions, FirstBefore;
    if here.Some? && here.value !in candidates {
      MentionedHere(places, j, i, candidates, here.value);
    }
    forall a
      ensures a in more <==> exists j': nat, i': nat :: Mentions(places, j', i', a) && Earlier(j', i', j, i + 1)
    {
      if here == Some(a) {
        assert Mentions(places, j, i, a) && Earlier(j, i, j, i + 1);
      }
      if a in candidates {
        var j': nat, i': nat :| Mentions(places, j', i', a) && Earlier(j', i', j, i);
        assert Earlier(j', i', j, i + 1);
      }
      if exists j': nat, i': nat :: Mentions(places, j', i', a) && Earlier(j', i', j, i + 1) {
        var j': nat, i': nat :| Mentions(places, j', i', a) && Earlier(j', i', j, i + 1);
        assert Earlier(j', i', j, i) || (j' == j && i' == i);
      }
    }
  }

  lemma RowIsDone(places: Places, j: nat, n: nat, candidates: seq<Address>)
    requires CollectedBefore(places, j, n, candidates) && forall i: nat, a :: n <= i ==> !Mentions(places, j, i, a)
    ensures CollectedBefore(places, j + 1, 0, candidates)
  {
    hide Mentions, FirstBefore;
    forall a
      ensures a in candidates <==> exists j': nat, i': nat :: Mentions(places, j', i', a) && Earlier(j', i', j + 1, 0)
    {
      if a in candidates {
        var j': nat, i': nat :| Mentions(places, j', i', a) && Earlier(j', i', j, n);
        assert Earlier(j', i', j + 1, 0);
      }
      if exists j': nat, i': nat :: Mentions(places, j', i', a) && Earlier(j', i', j + 1, 0) {
        var j': nat, i': nat :| Mentions(places, j', i', a) && Earlier(j', i', j + 1, 0);
        assert Earlier(j', i', j, n);
      }
    }
  }

  lemma NothingCollected(places: Places)
    ensures CollectedBefore(places, 0, 0, [])
  {
  }

  lemma AllIsCollected(places: Places, n: nat, candidates: seq<Address>)
    requires CollectedBefore(places, n, 0, candidates) && forall j: nat, i: nat, a :: n <= j ==> !Mentions(places, j, i, a)
    ensures Collected(places, candidates)
  {
    hide Mentions, FirstBefore;
    forall a
      ensures a in candidates <==> exists j: nat, i: nat :: Mentions(places, j, i, a)
    {
      if exists j: nat, i: nat :: Mentions(places, j, i, a) {
        var j: nat, i: nat :| Mentions(places, j, i, a);
        assert Earlier(j, i, n, 0);
      }
    }
  }

  /** The addresses in the answers of one more nested lookup. */
  method AddAnswers(candidates: seq<Address>, answers: seq<Record>, ghost asked: seq<Frame>)
    returns (more: seq<Address>)
    requires asked != [] && asked[|asked| - 1].response.answers == answers
    requires CollectedBefore(AnswerPlaces(asked), |asked| - 1, 0, candidates)
    ensures Collected(AnswerPlaces(asked), more)
  {
    hide CollectedBefore, Collected;
    more := candidates;
    ghost var j := |asked| - 1;
    for i := 0 to |answers|
      invariant CollectedBefore(AnswerPlaces(asked), j, i, more)
    {
      ghost var before := more;
      if answers[i].GetIpAddress().Some? {
        more := AddCandidate(more, answers[i].GetIpAddress().value);
      }
      TakenHere(AnswerPlaces(asked), j, i, before, answers[i].GetIpAddress(), more);
    }
    RowIsDone(AnswerPlaces(asked), j, |answers|, more);
    AllIsCollected(AnswerPlaces(asked), j + 1, more);
  }

  /** The addresses collected so far come before those of one more nested lookup. */
  lemma OneMoreAsked(asked: seq<Frame>, f: Frame, candidates: seq<Address>)
    requires Collected(AnswerPlaces(asked), candidates)
    ensures CollectedBefore(AnswerPlaces(asked + [f]), |asked|, 0, candidates)
  {
    hide Mentions;
    var longer := AnswerPlaces(asked + [f]);
    forall j: nat, i: nat, a
      ensures j < |asked| ==> (Mentions(longer, j, i, a) <==> Mentions(AnswerPlaces(asked), j, i, a))
      ensures Mentions(AnswerPlaces(asked), j, i, a) ==> j < |asked|
    {
      SameMentions(asked, f, j, i, a);
    }
    forall a
      ensures a in candidates <==> exists j: nat, i: nat :: Mentions(longer, j, i, a) && Earlier(j, i, |asked|, 0)
    {
      if a in candidates {
        var j: nat, i: nat :| Mentions(AnswerPlaces(asked), j, i, a);
        assert Mentions(longer, j, i, a) && Earlier(j, i, |asked|, 0);
      }
      if exists j: nat, i: nat :: Mentions(longer, j, i, a) && Earlier(j, i, |asked|, 0) {
        var j: nat, i: nat :| Mentions(longer, j, i, a) && Earlier(j, i, |asked|, 0);
        assert Mentions(AnswerPlaces(asked), j, i, a);
      }
    }
    forall x, y | 0 <= x < y < |candidates|
      ensures FirstBefore(longer, candidates[x], candidates[y])
    {
      var j: nat, i: nat :| Mentions(AnswerPlaces(asked), j, i, candidates[x])
        && forall j': nat, i': nat :: Mentions(AnswerPlaces(asked), j', i', candidates[y]) ==> Earlier(j, i, j', i');
      assert Mentions(longer, j, i, candidates[x]);
      forall j': nat, i': nat | Mentions(longer, j', i', candidates[y])
        ensures Earlier(j, i, j', i')
      {
        if j' < |asked| { assert Mentions(AnswerPlaces(asked), j', i', candidates[y]); }
      }
    }
  }

  lemma SameMentions(asked: seq<Frame>, f: Frame, j: nat, i: nat, a: Address)
    ensures j < |asked| ==> (Mentions(AnswerPlaces(asked + [f]), j, i, a) <==> Mentions(AnswerPlaces(asked), j, i, a))
    ensures Mentions(AnswerPlaces(asked), j, i, a) ==> j < |asked|
  {
  }

  lemma NoneAsked()
    ensures Collected(AnswerPlaces([]), [])
  {
  }

  /** The glue of the response: for each name server, the addresses of the records it owns. */
  method CollectGlue(response: Packet, names: seq<Name>) returns (candidates: seq<Address>)
    requires names == NsNames(response.authorities)
    ensures Collected(GluePlaces(response), candidates)
  {
    hide NsNames, CollectedBefore, Collected;
    candidates := [];
    NothingCollected(GluePlaces(response));
    for j := 0 to |names|
      invariant CollectedBefore(GluePlaces(response), j, 0, candidates)
    {
      for i := 0 to |response.additionals|
        invariant CollectedBefore(GluePlaces(response), j, i, candidates)
      {
        var record := response.additionals[i];
        var here: Option<Address> := None;
        EqualsIgnoreCaseIff(record.name, names[j]);
        ghost var before := candidates;
        if EqualsIgnoreCase(record.name, names[j]) {
          here := record.GetIpAddress();
          if here.Some? {
            candidates := AddCandidate(candidates, here.value);
          }
        }
        TakenHere(GluePlaces(response), j, i, before, here, candidates);
      }
      RowIsDone(GluePlaces(response), j, |response.additionals|, candidates);
    }
    AllIsCollected(GluePlaces(response), |names|, candidates);
  }

  /** One exchange with a name server. */
  method QueryNameServer(query: Packet, address: Address) returns (reply: Packet, ghost contact: Contact)
    ensures contact.address == address && reply == ReplyOf(query, contact.exchange)
  {
    var exchange := Choose();
    contact := Contact(address, exchange);
    var request := Encode(Request(query), MAX_BUFFER_SIZE);
    if request.Failure? { return EMPTY_PACKET, contact; }
    if !exchange.Reply? { return EMPTY_PACKET, contact; }
    var decoded := Decode(exchange.bytes, MAX_BUFFER_SIZE);
    if decoded.Failure? { return EMPTY_PACKET, contact; }
    if !decoded.value.header.IsResponse() || decoded.value.header.id != query.header.id { return EMPTY_PACKET, contact; }
    reply := decoded.value;
  }

  lemma {:induction false} FreshOnesGrow(candidates: seq<Address>, earlier: seq<Address>, i: nat)
    requires i <= |candidates|
    ensures FreshOnes(candidates[..i], earlier) <= FreshOnes(candidates, earlier)
    decreases |candidates|
  {
    if i == |candidates| {
      assert candidates[..i] == candidates;
    } else {
      var front := candidates[..|candidates| - 1];
      FreshOnesGrow(front, earlier, i);
      assert front[..i] == candidates[..i];
    }
  }

  lemma NoneFresh(earlier: seq<Address>)
    ensures FreshOnes([], earlier) == []
  {
  }

  lemma FreshOnesStep(candidates: seq<Address>, i: nat, earlier: seq<Address>)
    requires i < |candidates|
    ensures FreshOnes(candidates[..i + 1], earlier)
      == FreshOnes(candidates[..i], earlier) + if candidates[i] in earlier then [] else [candidates[i]]
  {
    assert candidates[..i + 1][..i] == candidates[..i];
  }

  /** Queries the candidates not queried before, in order, until one is accepted. */
  method QueryCandidates(query: Packet, candidates: seq<Address>, queriedServers: seq<Address>)
    returns (accepted: Option<Packet>, now: seq<Address>, ghost mine: seq<Address>,
             ghost contacts: seq<Contact>, ghost replies: seq<Packet>)
    requires NoDuplicates(candidates)
    ensures now == queriedServers + mine && mine <= FreshOnes(candidates, queriedServers)
    ensures |replies| == |contacts| == |mine| && forall i :: 0 <= i < |mine| ==> contacts[i].address == mine[i]
    ensures accepted.None? ==> mine == FreshOnes(candidates, queriedServers)
    ensures forall i :: 0 <= i < |replies| ==> replies[i] == ReplyOf(query, contacts[i].exchange)
    ensures forall i :: 0 <= i < |replies| - 1 ==> !Accepted(replies[i])
    ensures if accepted.Some? then replies != [] && replies[|replies| - 1] == accepted.value && Accepted(accepted.value)
      else forall i :: 0 <= i < |replies| ==> !Accepted(replies[i])
  {
    hide ReplyOf, Accepted, FreshOnes;
    now, mine, contacts, replies := queriedServers, [], [], [];
    assert FreshOnes(candidates[..0], queriedServers) == [] by { NoneFresh(queriedServers); }
    for i := 0 to |candidates|
      invariant now == queriedServers + mine && mine == FreshOnes(candidates[..i], queriedServers)
      invariant |replies| == |contacts| == |mine| && forall j :: 0 <= j < |mine| ==> contacts[j].address == mine[j]
      invariant forall j :: 0 <= j < |replies| ==> replies[j] == ReplyOf(query, contacts[j].exchange)
      invariant forall j :: 0 <= j < |replies| ==> !Accepted(replies[j])
    {
      FreshOnesMembers(candidates[..i], queriedServers);
      FreshOnesStep(candidates, i, queriedServers);
      if candidates[i] !in now {
        now := now + [candidates[i]];
        mine := mine + [candidates[i]];
        FreshOnesGrow(candidates, queriedServers, i + 1);
        var reply, contact := QueryNameServer(query, candidates[i]);
        contacts, replies := contacts + [contact], replies + [reply];
        if Accepted(reply) {
          return Some(reply), now, mine, contacts, replies;
        }
      }
    }
    assert candidates[..|candidates|] == candidates;
    accepted := None;
  }

  // ----- Endings -----

  lemma NestedEnd(f: Frame, s: Store)
    requires f.query.question.Some? && Nested(Opening(f), f.nested, s)
    ensures s == BeforeStoring(f)
  {
  }

  /** The rounds are about query, first response, nested lookups and current response only. */
  lemma SameRounds(f: Frame, g: Frame, completed: nat)
    requires ValidRounds(f, completed) && g.query == f.query && g.first == f.first && g.rounds == f.rounds
    requires g.nested == f.nested && g.last == f.last && g.roots == f.roots && g.log == f.log
    ensures ValidRounds(g, completed)
  {
    hide ValidRound, Completed, RootServers.RootsAsked, Current, Queried, NestedUpTo;
  }

  /** The obligations of a frame that ends: `s` is the cache after its last nested lookup. */
  lemma ResolvedIsValid(g: Frame, s: Store)
    requires g.query.question.Some?
    requires !g.ending.OutOfFuel? && !g.ending.NoQuestion? && !g.ending.CacheHit?
    requires FindAt(g.before.entries, KeyOf(g.query), g.checkedAt).None? && Nested(Opening(g), g.nested, s)
    requires ValidRounds(g, CompletedRounds(g)) && ValidEnding(g) && g.after == AfterStoring(g, s) && Timely(g)
    ensures ValidFrame(g)
  {
    hide ValidRounds, CompletedRounds, ValidEnding, AfterStoring, FindAt, KeyOf, Opening;
    NestedEnd(g, s);
  }

  /** A frame that ends outside a round is valid. */
  lemma Ends(f: Frame, s: Store, g: Frame)
    requires InProgress(f, s) && g.ending in {NotResponse, Failed, NoReferral, Exhausted}
    requires g == f.(ending := g.ending, made := g.made, storedAt := g.storedAt, response := g.response, after := g.after)
    requires ValidEnding(g) && g.after == AfterStoring(g, s) && Timely(g)
    ensures ValidFrame(g)
  {
    hide ValidRounds, ValidEnding, AfterStoring, NestedUpTo, FindAt, KeyOf, Nested, ValidFrame;
    SameRounds(f, g, |f.rounds|);
    ResolvedIsValid(g, s);
  }

  lemma BareEndings(f: Frame)
    requires f.rounds == [] && f.nested == [] && f.response == EMPTY_PACKET && f.after == f.before
    requires f.ending.OutOfFuel? || (f.ending.NoQuestion? && f.query.question.None?)
    ensures ValidFrame(f) && Sound(f.response, f.query)
  {
  }

  lemma CacheHitEnding(f: Frame, e: Entry)
    requires f.ending.CacheHit? && f.rounds == [] && f.nested == [] && f.query.question.Some?
    requires FindAt(f.before.entries, KeyOf(f.query), f.checkedAt) == Some(e)
    requires f.response == CachedResponse(f.query, e) && f.after == Opening(f) && EntriesWellFormed(f.before.entries)
    ensures ValidFrame(f) && Sound(f.response, f.query)
  {
  }

  /** After a miss and an answer from the roots, the frame is under way. */
  lemma Begins(f: Frame, s: Store)
    requires f.query.question.Some? && f.rounds == [] && f.nested == [] && f.last == f.first && s == Opening(f)
    requires FindAt(f.before.entries, KeyOf(f.query), f.checkedAt).None?
    requires RootServers.RootsAsked(f.query, f.roots, f.log, f.first)
    ensures InProgress(f, s)
  {
    hide RootServers.RootsAsked;
  }

  lemma ExhaustedEnding(f: Frame, s: Store, g: Frame)
    requires InProgress(f, s) && |f.rounds| == MAX_REFERRALS
    requires g == f.(ending := Exhausted, response := Finalized(f.last, f.query), after := s)
    ensures ValidFrame(g)
  {
    hide ValidRounds, NestedUpTo, FindAt, KeyOf, Nested, ValidFrame, Finalized;
    Ends(f, s, g);
  }

  /** The nested lookups of a round, and the round itself, complete or not. */
  lemma RoundTaken(f: Frame, s: Store, asked: seq<Frame>, t: Store, r: Round, completed: nat, g: Frame)
    requires InProgress(f, s) && |f.rounds| < MAX_REFERRALS && Nested(s, asked, t)
    requires ValidRound(f.query, f.nested + asked, r, Queried(f.rounds, |f.rounds|))
    requires r.response == f.last && r.start == |f.nested| && r.end == |f.nested + asked|
    requires completed == |f.rounds| || (completed == |f.rounds| + 1 && Completed(r))
    requires g == f.(nested := f.nested + asked, rounds := f.rounds + [r],
                     last := if completed == |f.rounds| then f.last else r.replies[|r.replies| - 1])
    ensures ValidRounds(g, completed) && NestedUpTo(g.rounds, |g.rounds|) == |g.nested|
    ensures Nested(Opening(g), g.nested, t)
  {
    hide ValidRound, RootServers.RootsAsked, Step, FindAt, KeyOf, ValidRounds, Queried, Nested, ValidFrame;
    NestedJoin(Opening(f), f.nested, s, asked, t);
    RoundsSurvive(f, asked, |f.rounds|);
    RoundAppended(f.(nested := f.nested + asked), r, completed);
  }

  /** A completed round leaves the frame under way. */
  lemma GoesOn(f: Frame, s: Store, asked: seq<Frame>, t: Store, r: Round, g: Frame)
    requires InProgress(f, s) && |f.rounds| < MAX_REFERRALS && Nested(s, asked, t) && Completed(r)
    requires ValidRound(f.query, f.nested + asked, r, Queried(f.rounds, |f.rounds|))
    requires r.response == f.last && r.start == |f.nested| && r.end == |f.nested + asked|
    requires g == f.(nested := f.nested + asked, rounds := f.rounds + [r], last := r.replies[|r.replies| - 1])
    ensures InProgress(g, t)
    ensures Queried(g.rounds, |g.rounds|) == Queried(f.rounds, |f.rounds|) + r.queried
  {
    hide ValidRound, RootServers.RootsAsked, Step, FindAt, KeyOf, ValidRounds, Nested, ValidFrame;
    RoundTaken(f, s, asked, t, r, |f.rounds| + 1, g);
    PrefixOfRounds(f.rounds, r, f.first, |f.rounds|);
  }

  /** A frame that ends in a round, for want of candidates or of replies, is valid. */
  lemma EndsRound(f: Frame, s: Store, asked: seq<Frame>, t: Store, r: Round, g: Frame)
    requires InProgress(f, s) && |f.rounds| < MAX_REFERRALS && Nested(s, asked, t)
    requires ValidRound(f.query, f.nested + asked, r, Queried(f.rounds, |f.rounds|))
    requires r.response == f.last && r.start == |f.nested| && r.end == |f.nested + asked|
    requires g == f.(nested := f.nested + asked, rounds := f.rounds + [r], ending := g.ending, made := g.made,
                     storedAt := g.storedAt, response := g.response, after := g.after)
    requires if g.ending.NoCandidates? then r.candidates == []
      else g.ending.AllSilent? && r.candidates != [] && Silent(r, Queried(f.rounds, |f.rounds|))
    requires g.response == Finalized(f.last, f.query) && g.checkedAt <= g.made <= g.storedAt
    requires g.after == Step(t, PutNegative(KeyOf(f.query), NODATA, NegativeTtl(f.last.authorities), g.made), g.storedAt)
    ensures ValidFrame(g)
  {
    hide ValidRound, RootServers.RootsAsked, Step, FindAt, KeyOf, ValidRounds, Silent, Finalized, Completed,
      NegativeTtl, Nested, ValidFrame;
    var h := f.(nested := f.nested + asked, rounds := f.rounds + [r]);
    RoundTaken(f, s, asked, t, r, |f.rounds|, h);
    SameRounds(h, g, |f.rounds|);
    PrefixOfRounds(f.rounds, r, f.first, |f.rounds|);
    assert HopsOf(g) == [];
    ResolvedIsValid(g, t);
  }

  /** A frame that ends with answers, after the hops of alias chasing, is valid. */
  lemma EndsAnswered(f: Frame, s: Store, hops: seq<Frame>, t: Store, g: Frame)
    requires InProgress(f, s) && |f.rounds| < MAX_REFERRALS && Nested(s, hops, t)
    requires g == f.(nested := f.nested + hops, ending := Answered, made := g.made, storedAt := g.storedAt,
                     response := g.response, after := g.after)
    requires f.last.header.IsResponse() && f.last.answers != [] && g.checkedAt <= g.made <= g.storedAt
    requires Chased(f.last.answers, f.query.question.value.qtype, hops)
    requires var all := AnswersAfter(f.last.answers, hops, |hops|);
      && g.response == Finalized(f.last.(answers := all), f.query)
      && g.after == Step(t, PutRecords(KeyOf(f.query), all, 60, g.made), g.storedAt)
    ensures ValidFrame(g)
  {
    hide ValidRound, RootServers.RootsAsked, Chased, Step, Finalized, FindAt, KeyOf, ValidRounds, Nested, ValidFrame;
    NestedJoin(Opening(f), f.nested, s, hops, t);
    RoundsSurvive(f, hops, |f.rounds|);
    SameRounds(f.(nested := f.nested + hops), g, |f.rounds|);
    assert HopsOf(g) == hops;
    ResolvedIsValid(g, t);
  }

  lemma EmptyIsNotAccepted()
    ensures !Accepted(EMPTY_PACKET)
  {
  }

  lemma UpstreamIsSound(response: Packet, query: Packet)
    requires response == EMPTY_PACKET || UpstreamResponse(response, query)
    ensures Sound(response, query)
  {
  }

  lemma HopAppended(answers: seq<Record>, qtype: u16, hops: seq<Frame>, hop: Frame)
    requires Hops(answers, qtype, hops) && |hops| < MAX_CNAME_HOPS
    requires forall n :: 0 <= n < |hops| ==> hops[n].response.answers != []
    requires var sofar := AnswersAfter(answers, hops, |hops|);
      !HasType(sofar, qtype) && AliasTarget(sofar) != [] && AsksFor(hop, AliasTarget(sofar), qtype)
    ensures Hops(answers, qtype, hops + [hop])
    ensures AnswersAfter(answers, hops + [hop], |hops| + 1) == AnswersAfter(answers, hops, |hops|) + hop.response.answers
  {
    hide HasType, AliasTarget, AsksFor, AnswersAfter;
    var longer := hops + [hop];
    forall n | 0 <= n < |longer|
      ensures HopAt(answers, qtype, longer, n)
    {
      SameHops(answers, hops, hop, n);
      if n < |hops| {
        assert HopAt(answers, qtype, hops, n);
        assert longer[n] == hops[n];
      }
    }
    AnswersAfterOneMore(answers, hops, hop);
  }

  lemma AnswersAfterOneMore(answers: seq<Record>, hops: seq<Frame>, hop: Frame)
    ensures AnswersAfter(answers, hops + [hop], |hops| + 1) == AnswersAfter(answers, hops, |hops|) + hop.response.answers
  {
    SameHops(answers, hops, hop, |hops|);
    assert (hops + [hop])[|hops|] == hop;
  }

  lemma {:induction false} SameHops(answers: seq<Record>, hops: seq<Frame>, hop: Frame, n: nat)
    requires n <= |hops|
    ensures AnswersAfter(answers, hops + [hop], n) == AnswersAfter(answers, hops, n)
  {
    if n > 0 {
      SameHops(answers, hops, hop, n - 1);
    }
  }

  /** Something was collected exactly if there is glue. */
  lemma CollectedGlue(response: Packet, candidates: seq<Address>)
    requires Collected(GluePlaces(response), candidates)
    ensures HasGlue(response) <==> candidates != []
  {
    hide IsGlue, Mentions, FirstBefore;
    forall a
      ensures IsGlue(response, a) <==> a in candidates
    {
      GlueIsMentioned(response, a);
    }
    if candidates != [] {
      assert IsGlue(response, candidates[0]);
    }
  }

  lemma CandidatesAreDistinct(response: Packet, asked: seq<Frame>, candidates: seq<Address>)
    requires CandidatesFrom(response, asked, candidates)
    ensures NoDuplicates(candidates)
  {
    hide HasGlue, AskedForAll, Mentions, FirstBefore, NsNames;
  }

  lemma AskedAppended(names: seq<Name>, k: nat, asked: seq<Frame>, f4: Frame, f6: Frame)
    requires k < |names| && AskedForAll(names[..k], asked)
    requires AsksFor(f4, names[k], TYPE_A) && AsksFor(f6, names[k], TYPE_AAAA)
    ensures AskedForAll(names[..k + 1], asked + [f4] + [f6])
  {
  }

  lemma RoundIsValid(f: Frame, asked: seq<Frame>, r: Round)
    requires IsReferral(r.response) && NoDuplicates(r.candidates) && CandidatesFrom(r.response, asked, r.candidates)
    requires r.start == |f.nested| && r.end == |f.nested + asked|
    requires r.queried <= FreshOnes(r.candidates, Queried(f.rounds, |f.rounds|)) && Replies(f.query, r)
    ensures ValidRound(f.query, f.nested + asked, r, Queried(f.rounds, |f.rounds|))
  {
    hide CandidatesFrom, Replies, IsReferral, FreshOnes, NoDuplicates;
    assert (f.nested + asked)[r.start..r.end] == asked;
  }

  // ----- The resolver -----

  class DnsResolver {
    const cache: DnsCache
    const roots: RootServers.RootServerManager

    constructor (addresses: seq<Address>, clock: SteadyClock)
      ensures fresh(cache) && fresh(roots) && cache.clock == clock && Valid()
    {
      cache := new DnsCache(clock);
      roots := new RootServers.RootServerManager(addresses);
    }

    ghost predicate Valid()
      reads this, cache
    {
      cache.Valid() && EntriesWellFormed(cache.entries)
    }

    /** `lookup(domain, type)`: the query is made here, with an arbitrary ID. */
    method LookupName(domain: Name, qtype: u16, fuel: nat) returns (response: Packet, ghost frame: Frame)
      requires Valid()
      modifies cache, cache.clock, roots
      ensures old(cache.clock.now) <= cache.clock.now
      ensures Valid() && ValidFrame(frame) && SectionsWellFormed(response)
      ensures frame.response == response && frame.before == old(cache.Now()) && frame.after == cache.Now()
      ensures AsksFor(frame, domain, qtype)
      decreases fuel, 7
    {
      var id: int := *;
      var header := BLANK.(id := if 0 <= id < 0x1_0000 then id else 0, qdcount := 1).SetRecursionDesired(false);
      var packet := EMPTY_PACKET.(header := header).SetQuestion(Question(domain, qtype, 1));
      response, frame := Lookup(packet, fuel);
    }

    method Lookup(query: Packet, fuel: nat) returns (response: Packet, ghost frame: Frame)
      requires Valid()
      modifies cache, cache.clock, roots
      ensures old(cache.clock.now) <= cache.clock.now
      ensures Valid() && ValidFrame(frame) && Sound(response, query)
      ensures frame.query == query && frame.response == response && frame.roots == old(roots.servers)
      ensures frame.before == old(cache.Now()) && frame.after == cache.Now()
      ensures frame.ending.OutOfFuel? <==> fuel == 0
      ensures frame.storedAt <= cache.clock.now
      ensures fuel > 0 && query.question.Some? ==> old(cache.clock.now) <= frame.checkedAt <= cache.clock.now
      decreases fuel, 6
    {
      hide ValidFrame, CachedResponse, ResolvedFrame, Sound, InProgress, RootServers.RootsAsked, UpstreamResponse;
      ghost var s := cache.Now();
      frame := Frame(query, s, 0, roots.servers, [], EMPTY_PACKET, [], EMPTY_PACKET, [], OutOfFuel, 0, 0, EMPTY_PACKET, s);
      BareEndings(frame);
      if fuel == 0 {
        return EMPTY_PACKET, frame;
      }
      if query.question.None? {
        BareEndings(frame.(ending := NoQuestion));
        return EMPTY_PACKET, frame.(ending := NoQuestion);
      }
      var key := MakeKey(query.question.value.name, query.question.value.qtype);
      var cached := cache.Get(key);
      StepKeepsWellFormed(s, Op.Get(key), cache.clock.now);
      frame := frame.(checkedAt := cache.clock.now);
      if cached.Some? {
        response := CachedResponse(query, cached.value);
        frame := frame.(ending := CacheHit, response := response, after := cache.Now());
        CacheHitEnding(frame, cached.value);
        return;
      }
      ghost var log, idle;
      var first;
      first, log, idle := roots.AskRootServer(query);
      frame := frame.(log := log, first := first, last := first);
      Begins(frame, cache.Now());
      response, frame := FollowReferrals(query, first, fuel, frame);
    }

    /** The referral loop: at most sixteen rounds. */
    method FollowReferrals(query: Packet, first: Packet, fuel: nat, ghost start: Frame)
      returns (result: Packet, ghost f: Frame)
      requires Valid() && fuel > 0
      requires query.question.Some? && start.query == query && start.first == first == start.last && start.rounds == []
      requires first == EMPTY_PACKET || UpstreamResponse(first, query)
      requires InProgress(start, cache.Now())
      requires start.checkedAt <= cache.clock.now && start.storedAt <= cache.clock.now
      modifies cache, cache.clock, roots
      ensures old(cache.clock.now) <= cache.clock.now
      ensures Valid() && ValidFrame(f) && Sound(result, query) && !f.ending.OutOfFuel?
      ensures f.query == query && f.response == result && f.before == start.before && f.after == cache.Now()
      ensures f.roots == start.roots && f.storedAt <= cache.clock.now
      ensures f.checkedAt == start.checkedAt
      decreases fuel, 5
    {
      hide InProgress, ValidFrame, UpstreamResponse, Finalized;
      f := start;
      var response := first;
      var queriedServers: seq<Address> := [];
      for count := 0 to MAX_REFERRALS
        invariant Valid() && InProgress(f, cache.Now()) && |f.rounds| == count
        invariant f.query == query && f.before == start.before && f.last == response && f.roots == start.roots
        invariant f.checkedAt == start.checkedAt <= cache.clock.now && f.storedAt <= cache.clock.now
        invariant old(cache.clock.now) <= cache.clock.now
        invariant response == EMPTY_PACKET || UpstreamResponse(response, query)
        invariant queriedServers == Queried(f.rounds, |f.rounds|)
      {
        UpstreamIsSound(response, query);
        if !response.header.IsResponse() || response.answers != [] || response.header.GetResultCode() != NOERROR
          || (response.authorities == [] && response.additionals == []) {
          result, f := Finish(query, response, fuel, f);
          return;
        }
        var next;
        next, queriedServers, result, f := ReferralRound(query, response, queriedServers, fuel, f);
        if next.None? {
          return;
        }
        response := next.value;
      }
      UpstreamIsSound(response, query);
      FinalizedIsSound(response, query);
      result := Finalized(response, query);
      ghost var g := f.(ending := Exhausted, response := result, after := cache.Now());
      ExhaustedEnding(f, cache.Now(), g);
      f := g;
    }

    /** The negative TTL, from the first SOA record of the authority section. */
    method ExtractNegativeTtl(packet: Packet) returns (ttl: u32)
      ensures ttl == NegativeTtl(packet.authorities)
    {
      var authorities := packet.authorities;
      for i := 0 to |authorities|
        invariant NegativeTtl(authorities[i..]) == NegativeTtl(authorities)
      {
        assert authorities[i..][1..] == authorities[i + 1..];
        if authorities[i].data.SOA? {
          var soaTtl, minField := authorities[i].ttl, authorities[i].data.minimum;
          if soaTtl > 0 && minField > 0 { return if minField < soaTtl then minField else soaTtl; }
          if soaTtl > 0 { return soaTtl; }
          if minField > 0 { return minField; }
          return DEFAULT_TTL;
        }
      }
      ttl := DEFAULT_TTL;
    }

    /** The ways a lookup ends at the top of a round: no response, answers, an error, or nothing at all. */
    method Finish(query: Packet, response: Packet, fuel: nat, ghost start: Frame) returns (result: Packet, ghost f: Frame)
      requires Valid() && fuel > 0 && query.question.Some? && start.query == query && start.last == response
      requires InProgress(start, cache.Now()) && |start.rounds| < MAX_REFERRALS
      requires start.checkedAt <= cache.clock.now && start.storedAt <= cache.clock.now
      requires Sound(response, query) && !IsReferral(response)
      modifies cache, cache.clock, roots
      ensures old(cache.clock.now) <= cache.clock.now
      ensures Valid() && ValidFrame(f) && Sound(result, query) && !f.ending.OutOfFuel?
      ensures f.query == query && f.response == result && f.before == start.before && f.after == cache.Now()
      ensures f.roots == start.roots && f.storedAt <= cache.clock.now
      ensures f.checkedAt == start.checkedAt
      decreases fuel, 4
    {
      hide ValidFrame, ValidRounds, Threads, Finalized, Sound;
      ghost var s := cache.Now();
      FinalizedIsSound(response, query);
      if !response.header.IsResponse() {
        f := start.(ending := NotResponse, response := response, after := s);
        Ends(start, s, f);
        return response, f;
      }
      if response.answers != [] {
        result, f := Answer(query, response, fuel, start);
        return;
      }
      var ttl := ExtractNegativeTtl(response);
      result := Finalized(response, query);
      f := start.(response := result, after := s);
      if response.header.GetResultCode() != NOERROR {
        f := f.(ending := Failed);
        if response.header.GetResultCode() == ResultCode.NXDOMAIN {
          ghost var made := cache.PutNegative(KeyOf(query), CacheResult.NXDOMAIN, ttl);
          StepKeepsWellFormed(s, PutNegative(KeyOf(query), CacheResult.NXDOMAIN, ttl, made), cache.clock.now);
          f := f.(made := made, storedAt := cache.clock.now, after := cache.Now());
        }
      } else {
        ghost var made := cache.PutNegative(KeyOf(query), NODATA, ttl);
        StepKeepsWellFormed(s, PutNegative(KeyOf(query), NODATA, ttl, made), cache.clock.now);
        f := f.(ending := NoReferral, made := made, storedAt := cache.clock.now, after := cache.Now());
      }
      Ends(start, s, f);
    }

    /** Answers arrived: follow aliases, cache what will be returned, return it. */
    method Answer(query: Packet, response: Packet, fuel: nat, ghost start: Frame) returns (result: Packet, ghost f: Frame)
      requires Valid() && fuel > 0 && query.question.Some? && start.query == query && start.last == response
      requires InProgress(start, cache.Now()) && |start.rounds| < MAX_REFERRALS
      requires start.checkedAt <= cache.clock.now && start.storedAt <= cache.clock.now
      requires Sound(response, query) && response.header.IsResponse() && response.answers != []
      modifies cache, cache.clock, roots
      ensures old(cache.clock.now) <= cache.clock.now
      ensures Valid() && ValidFrame(f) && Sound(result, query) && !f.ending.OutOfFuel?
      ensures f.query == query && f.response == result && f.before == start.before && f.after == cache.Now()
      ensures f.roots == start.roots && f.storedAt <= cache.clock.now
      ensures f.checkedAt == start.checkedAt
      decreases fuel, 3
    {
      hide ValidFrame, ValidRounds, Threads, Finalized, InProgress, Hops, HopsStop;
      ghost var s := cache.Now();
      var answers := response.answers;
      ghost var hops: seq<Frame> := [];
      NestedNone(s);
      if query.question.value.qtype != TYPE_CNAME {
        answers, hops := ChaseAliases(answers, query.question.value.qtype, fuel);
      }
      ghost var t := cache.Now();
      ghost var made := cache.PutRecords(KeyOf(query), answers, 60);
      StepKeepsWellFormed(t, PutRecords(KeyOf(query), answers, 60, made), cache.clock.now);
      FinalizedIsSound(response.(answers := answers), query);
      result := Finalized(response.(answers := answers), query);
      f := start.(nested := start.nested + hops, ending := Answered, made := made, storedAt := cache.clock.now,
                  response := result, after := cache.Now());
      EndsAnswered(start, s, hops, t, f);
    }

    /** The target of the first alias among the answers. */
    method FindAlias(answers: seq<Record>) returns (target: Name)
      ensures target == AliasTarget(answers)
    {
      target := [];
      for i := 0 to |answers|
        invariant AliasTarget(answers) == AliasTarget(answers[i..])
      {
        assert answers[i..][1..] == answers[i + 1..];
        if answers[i].rtype == TYPE_CNAME && answers[i].data.CNAME? {
          return answers[i].data.canonicalName;
        }
      }
    }

    /** At most ten hops; each looks the first alias up and appends what it finds. */
    method ChaseAliases(answers: seq<Record>, qtype: u16, fuel: nat) returns (all: seq<Record>, ghost hops: seq<Frame>)
      requires Valid() && fuel > 0 && AllWellFormed(answers)
      modifies cache, cache.clock, roots
      ensures old(cache.clock.now) <= cache.clock.now
      ensures Valid() && AllWellFormed(all) && Nested(old(cache.Now()), hops, cache.Now())
      ensures Hops(answers, qtype, hops) && HopsStop(answers, qtype, hops)
      ensures all == AnswersAfter(answers, hops, |hops|)
      decreases fuel, 2
    {
      hide ValidFrame, WellFormed;
      all, hops := answers, [];
      ghost var s := cache.Now();
      for hop := 0 to MAX_CNAME_HOPS
        invariant Valid() && AllWellFormed(all) && Nested(s, hops, cache.Now())
        invariant old(cache.clock.now) <= cache.clock.now
        invariant |hops| == hop && Hops(answers, qtype, hops) && all == AnswersAfter(answers, hops, hop)
        invariant forall n :: 0 <= n < |hops| ==> hops[n].response.answers != []
      {
        if HasType(all, qtype) {
          break;
        }
        var target := FindAlias(all);
        if target == [] {
          break;
        }
        ghost var m := cache.Now();
        var response, hopFrame := LookupName(target, qtype, fuel - 1);
        NestedOne(hopFrame);
        NestedJoin(s, hops, m, [hopFrame], cache.Now());
        HopAppended(answers, qtype, hops, hopFrame);
        hops := hops + [hopFrame];
        all := all + response.answers;
        if response.answers == [] {
          break;
        }
      }
    }

    /** Looks up both address types of every name server. */
    method ResolveNameServers(names: seq<Name>, fuel: nat) returns (candidates: seq<Address>, ghost asked: seq<Frame>)
      requires Valid() && fuel > 0
      modifies cache, cache.clock, roots
      ensures old(cache.clock.now) <= cache.clock.now
      ensures Valid() && Nested(old(cache.Now()), asked, cache.Now()) && AskedForAll(names, asked)
      ensures Collected(AnswerPlaces(asked), candidates)
      decreases fuel, 2
    {
      hide ValidFrame, SectionsWellFormed, Collected, CollectedBefore;
      candidates, asked := [], [];
      ghost var s := cache.Now();
      NoneAsked();
      for k := 0 to |names|
        invariant Valid() && Nested(s, asked, cache.Now()) && AskedForAll(names[..k], asked)
        invariant old(cache.clock.now) <= cache.clock.now
        invariant Collected(AnswerPlaces(asked), candidates)
      {
        ghost var m := cache.Now();
        var response, f4 := LookupName(names[k], TYPE_A, fuel - 1);
        OneMoreAsked(asked, f4, candidates);
        candidates := AddAnswers(candidates, response.answers, asked + [f4]);
        NestedOne(f4);
        NestedJoin(s, asked, m, [f4], cache.Now());
        m := cache.Now();
        ghost var f6;
        response, f6 := LookupName(names[k], TYPE_AAAA, fuel - 1);
        OneMoreAsked(asked + [f4], f6, candidates);
        candidates := AddAnswers(candidates, response.answers, asked + [f4] + [f6]);
        NestedOne(f6);
        NestedJoin(s, asked + [f4], m, [f6], cache.Now());
        AskedAppended(names, k, asked, f4, f6);
        asked := asked + [f4] + [f6];
      }
      assert names[..|names|] == names;
    }

    /** One referral round: candidates from glue or nested lookups, then queries until one is accepted. */
    method ReferralRound(query: Packet, response: Packet, queriedServers: seq<Address>, fuel: nat, ghost start: Frame)
      returns (next: Option<Packet>, now: seq<Address>, result: Packet, ghost f: Frame)
      requires Valid() && fuel > 0 && query.question.Some? && start.query == query && start.last == response
      requires InProgress(start, cache.Now()) && |start.rounds| < MAX_REFERRALS
      requires start.checkedAt <= cache.clock.now && start.storedAt <= cache.clock.now
      requires Sound(response, query) && IsReferral(response)
      requires queriedServers == Queried(start.rounds, |start.rounds|)
      modifies cache, cache.clock, roots
      ensures old(cache.clock.now) <= cache.clock.now
      ensures Valid() && f.query == query && f.before == start.before
      ensures f.checkedAt == start.checkedAt && f.roots == start.roots && f.storedAt <= cache.clock.now
      ensures next.Some? ==> InProgress(f, cache.Now()) && |f.rounds| == |start.rounds| + 1
      ensures next.Some? ==> f.last == next.value && UpstreamResponse(next.value, query)
      ensures next.Some? ==> now == Queried(f.rounds, |f.rounds|)
      ensures next.None? ==> ValidFrame(f) && Sound(result, query) && !f.ending.OutOfFuel?
      ensures next.None? ==> f.response == result && f.after == cache.Now()
      decreases fuel, 4
    {
      hide ValidFrame, Finalized, InProgress, UpstreamResponse, NsNames, AskedForAll, Collected, IsGlue, Sound,
        ReplyOf, Accepted, Nested, FreshOnes, ValidRound, IsReferral;
      ghost var s := cache.Now();
      var names := CollectNsNames(response.authorities);
      var candidates := CollectGlue(response, names);
      ghost var asked: seq<Frame> := [];
      NestedNone(s);
      CollectedGlue(response, candidates);
      if candidates == [] {
        candidates, asked := ResolveNameServers(names, fuel);
      }
      ghost var t := cache.Now();
      ghost var r := Round(response, |start.nested|, |start.nested + asked|, candidates, [], [], []);
      assert CandidatesFrom(response, asked, candidates);
      CandidatesAreDistinct(response, asked, candidates);
      result := Finalized(response, query);
      FinalizedIsSound(response, query);
      var ttl := ExtractNegativeTtl(response);
      f := start.(nested := start.nested + asked, response := result);
      next, now := None, queriedServers;
      if candidates != [] {
        ghost var mine, contacts, replies;
        next, now, mine, contacts, replies := QueryCandidates(query, candidates, queriedServers);
        r := r.(queried := mine, contacts := contacts, replies := replies);
      }
      RoundIsValid(start, asked, r);
      f := f.(rounds := start.rounds + [r]);
      if next.Some? {
        f := start.(nested := f.nested, rounds := f.rounds, last := next.value);
        ReplyIsUpstream(query, r.contacts[|r.replies| - 1].exchange);
        EmptyIsNotAccepted();
        GoesOn(start, s, asked, t, r, f);
        return;
      }
      ghost var made := cache.PutNegative(KeyOf(query), NODATA, ttl);
      StepKeepsWellFormed(t, PutNegative(KeyOf(query), NODATA, ttl, made), cache.clock.now);
      f := f.(ending := if candidates == [] then NoCandidates else AllSilent,
              made := made, storedAt := cache.clock.now, after := cache.Now());
      EndsRound(start, s, asked, t, r, f);
    }
  }
}
