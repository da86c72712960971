/**
 Root server selection: a status machine per server, a moving average of round-trip times, and
 the choice of the next server to try, with a probing thread at work under the same mutex.

 Every critical section that changes a server is one `ServerStep`; whatever other threads do
 between two critical sections is an arbitrary sequence of such steps.
 */
module RootServers {
  import opened Wire
  import opened Buffer
  import opened Records
  import opened Packets
  import opened Grammar
  import opened Upstream

  const SIZE_LIMIT: nat := 0x1_0000_0000_0000_0000
  const SIZE_MAX: nat := 0xFFFF_FFFF_FFFF_FFFF
  const COUNTER_LIMIT: nat := 0x1_0000_0000

  type size = x: int | 0 <= x < SIZE_LIMIT

  datatype Status = UNKNOWN | SUCCESS | FAIL

  /** The original calls the first category UNKNOWN, like the status. */
  datatype Category = UNTESTED | SLOW_BAND | FAST_BAND

  datatype RootServer = RootServer(address: Address, status: Status, failures: u32, srtt: size)

  // ----- The status machine -----

  /** The moving average, in the arithmetic of an unsigned 64-bit word. */
  function UpdatedSrtt(srtt: size, sample: size): size {
    if srtt == 0 then sample else (7 * srtt + sample) % SIZE_LIMIT / 8
  }

  datatype ServerStep = Failed(index: nat) | Answered(index: nat, rtt: Millis)

  function Apply(servers: seq<RootServer>, step: ServerStep): (after: seq<RootServer>)
    ensures |after| == |servers|
  {
    if step.index >= |servers| then servers
    else
      var s := servers[step.index];
      servers[step.index := match step
        case Failed(_) => s.(status := FAIL, failures := (s.failures + 1) % COUNTER_LIMIT)
        case Answered(_, rtt) => s.(status := SUCCESS, failures := 0, srtt := UpdatedSrtt(s.srtt, rtt))]
  }

  function Run(servers: seq<RootServer>, steps: seq<ServerStep>): (after: seq<RootServer>)
    ensures |after| == |servers|
    decreases |steps|
  {
    if steps == [] then servers
    else Apply(Run(servers, steps[..|steps| - 1]), steps[|steps| - 1])
  }

  ghost predicate Fresh(servers: seq<RootServer>) {
    forall i :: 0 <= i < |servers| ==> servers[i].status == UNKNOWN && servers[i].failures == 0 && servers[i].srtt == 0
  }

  /** How often server `i` failed since it last answered. */
  ghost function Streak(steps: seq<ServerStep>, i: nat): nat
    decreases |steps|
  {
    if steps == [] then 0
    else
      var last, before := steps[|steps| - 1], steps[..|steps| - 1];
      if last.index != i then Streak(before, i)
      else if last.Failed? then Streak(before, i) + 1
      else 0
  }

  ghost predicate Touched(steps: seq<ServerStep>, i: nat) {
    exists k :: 0 <= k < |steps| && steps[k].index == i
  }

  /** What the status of a server says about its history, and about its counters. */
  ghost predicate Tells(s: RootServer, touched: bool, streak: nat) {
    && s.failures == streak % COUNTER_LIMIT
    && (s.status == UNKNOWN <==> !touched)
    && (s.status == FAIL <==> streak > 0)
    && (s.status == UNKNOWN ==> s.srtt == 0)
  }

  /** After every interleaving of lookups and probes: UNKNOWN means nothing happened yet (so no
      failures and no SRTT), SUCCESS that the last step was an answer (so no failures), FAIL that
      the last steps were failures, counted modulo 2^32. */
  lemma {:induction false} StatusTellsHistory(servers: seq<RootServer>, steps: seq<ServerStep>, i: nat)
    requires Fresh(servers) && i < |servers|
    ensures Tells(Run(servers, steps)[i], Touched(steps, i), Streak(steps, i))
    ensures !Touched(steps, i) ==> Streak(steps, i) == 0
    ensures Run(servers, steps)[i].address == servers[i].address
    decreases |steps|
  {
    if steps != [] {
      var before := steps[..|steps| - 1];
      StatusTellsHistory(servers, before, i);
      TouchedStep(steps, i);
      CounterStep(Streak(before, i));
    }
  }

  lemma TouchedStep(steps: seq<ServerStep>, i: nat)
    requires steps != []
    ensures Touched(steps, i) <==> steps[|steps| - 1].index == i || Touched(steps[..|steps| - 1], i)
  {
  }

  lemma CounterStep(n: nat)
    ensures (n % COUNTER_LIMIT + 1) % COUNTER_LIMIT == (n + 1) % COUNTER_LIMIT
  {
  }

  /** A failed server's 32-bit counter is nonzero exactly when its failures since the last
      answer are not a multiple of 2^32. */
  lemma {:induction false} FailedCounterIsPositiveIff(servers: seq<RootServer>, steps: seq<ServerStep>, i: nat)
    requires Fresh(servers) && i < |servers| && Run(servers, steps)[i].status == FAIL
    ensures Streak(steps, i) >= 1
    ensures Run(servers, steps)[i].failures >= 1 <==> Streak(steps, i) % COUNTER_LIMIT != 0
  {
    StatusTellsHistory(servers, steps, i);
  }

  function FailedTimes(n: nat): (steps: seq<ServerStep>)
    ensures |steps| == n && forall k :: 0 <= k < n ==> steps[k] == Failed(0)
  {
    seq(n, _ => Failed(0))
  }

  lemma {:induction false} StreakOfFailures(n: nat)
    ensures Streak(FailedTimes(n), 0) == n
  {
    if n > 0 {
      StreakOfFailures(n - 1);
      assert FailedTimes(n)[..n - 1] == FailedTimes(n - 1);
    }
  }

  /** The input on which it does wrap: 2^32 failures in a row leave a FAIL server with counter 0. */
  lemma FailureCounterWraps(server: RootServer)
    requires Fresh([server])
    ensures var after := Run([server], FailedTimes(COUNTER_LIMIT))[0]; after.status == FAIL && after.failures == 0
  {
    StreakOfFailures(COUNTER_LIMIT);
    StatusTellsHistory([server], FailedTimes(COUNTER_LIMIT), 0);
  }

  /** No server ever returns to UNKNOWN, and none changes its address. */
  lemma {:induction false} NeverUnknownAgain(servers: seq<RootServer>, steps: seq<ServerStep>, i: nat)
    requires i < |servers|
    ensures Run(servers, steps)[i].address == servers[i].address
    ensures servers[i].status != UNKNOWN ==> Run(servers, steps)[i].status != UNKNOWN
    decreases |steps|
  {
    if steps != [] {
      NeverUnknownAgain(servers, steps[..|steps| - 1], i);
    }
  }

  lemma {:induction false} RunInSequence(servers: seq<RootServer>, first: seq<ServerStep>, rest: seq<ServerStep>)
    ensures Run(servers, first + rest) == Run(Run(servers, first), rest)
    decreases |rest|
  {
    if rest == [] {
      assert first + rest == first;
    } else {
      var front := rest[..|rest| - 1];
      RunInSequence(servers, first, front);
      assert (first + rest)[..|first + rest| - 1] == first + front;
    }
  }

  // ----- The moving average -----

  ghost function Averaged(srtt: size, samples: seq<size>): size
    decreases |samples|
  {
    if samples == [] then srtt
    else UpdatedSrtt(Averaged(srtt, samples[..|samples| - 1]), samples[|samples| - 1])
  }

  /** After any nonempty sequence of samples the average lies between the least and the greatest,
      as long as eight times the greatest fits the word. */
  lemma {:induction false} AverageIsBounded(samples: seq<size>, lo: size, hi: size)
    requires samples != [] && 8 * hi < SIZE_LIMIT
    requires forall k :: 0 <= k < |samples| ==> lo <= samples[k] <= hi
    ensures lo <= Averaged(0, samples) <= hi
    decreases |samples|
  {
    var front := samples[..|samples| - 1];
    if front != [] {
      AverageIsBounded(front, lo, hi);
      AverageStep(Averaged(0, front), samples[|samples| - 1], lo, hi);
    }
  }

  lemma AverageStep(srtt: size, sample: size, lo: size, hi: size)
    requires lo <= srtt <= hi && lo <= sample <= hi && 8 * hi < SIZE_LIMIT
    ensures lo <= UpdatedSrtt(srtt, sample) <= hi
  {
  }

  function Distance(a: nat, b: nat): nat { if a <= b then b - a else a - b }

  ghost predicate Settled(srtt: size, m: size) { m - 7 <= srtt <= m }

  lemma AverageApproaches(srtt: size, m: size)
    requires 8 * srtt < SIZE_LIMIT && 8 * m < SIZE_LIMIT
    ensures Settled(srtt, m) ==> Settled(UpdatedSrtt(srtt, m), m)
    ensures !Settled(srtt, m) ==> Distance(UpdatedSrtt(srtt, m), m) < Distance(srtt, m)
    ensures 8 * UpdatedSrtt(srtt, m) < SIZE_LIMIT
  {
  }

  ghost function Repeated(srtt: size, m: size, n: nat): size {
    if n == 0 then srtt else UpdatedSrtt(Repeated(srtt, m, n - 1), m)
  }

  lemma {:induction false} RepeatedStep(srtt: size, m: size, n: nat)
    requires 8 * srtt < SIZE_LIMIT && 8 * m < SIZE_LIMIT
    ensures 8 * Repeated(srtt, m, n) < SIZE_LIMIT
    ensures Settled(Repeated(srtt, m, n), m) || Distance(Repeated(srtt, m, n), m) + n <= Distance(srtt, m)
  {
    if n > 0 {
      RepeatedStep(srtt, m, n - 1);
      AverageApproaches(Repeated(srtt, m, n - 1), m);
    }
  }

  /** Under a repeated sample `m` the average reaches [m - 7, m] within |srtt - m| steps and
      stays there, the restart at zero included. */
  lemma AverageConverges(srtt: size, m: size, n: nat)
    requires 8 * srtt < SIZE_LIMIT && 8 * m < SIZE_LIMIT
    requires n >= Distance(srtt, m)
    ensures Settled(Repeated(srtt, m, n), m)
  {
    RepeatedStep(srtt, m, n);
  }

  // ----- The average of a server, over runs -----

  /** The round-trip times of the answers of server `i`, in order. */
  ghost function Samples(steps: seq<ServerStep>, i: nat): seq<size>
    decreases |steps|
  {
    if steps == [] then []
    else
      var last, before := steps[|steps| - 1], steps[..|steps| - 1];
      Samples(before, i) + if last.Answered? && last.index == i then [last.rtt] else []
  }

  /** A server's SRTT is the average of the answers it gave, whatever happened in between. */
  lemma {:induction false} SrttIsAverage(servers: seq<RootServer>, steps: seq<ServerStep>, i: nat)
    requires i < |servers|
    ensures Run(servers, steps)[i].srtt == Averaged(servers[i].srtt, Samples(steps, i))
    decreases |steps|
  {
    if steps != [] {
      var before := steps[..|steps| - 1];
      SrttIsAverage(servers, before, i);
      assert Samples(steps, i) == Samples(before, i) || Samples(steps, i)[..|Samples(before, i)|] == Samples(before, i);
    }
  }

  lemma {:induction false} SamplesAreMillis(steps: seq<ServerStep>, i: nat)
    ensures forall k :: 0 <= k < |Samples(steps, i)| ==> Samples(steps, i)[k] <= MAX_MILLIS
    decreases |steps|
  {
    if steps != [] {
      SamplesAreMillis(steps[..|steps| - 1], i);
    }
  }

  /** In every run the SRTT of a server that answered lies between its least and its greatest
      round-trip time: no clock can make the arithmetic wrap. */
  lemma {:induction false} SrttIsBounded(servers: seq<RootServer>, steps: seq<ServerStep>, i: nat, lo: Millis, hi: Millis)
    requires Fresh(servers) && i < |servers| && Samples(steps, i) != []
    requires forall k :: 0 <= k < |Samples(steps, i)| ==> lo <= Samples(steps, i)[k] <= hi
    ensures lo <= Run(servers, steps)[i].srtt <= hi
  {
    SrttIsAverage(servers, steps, i);
    AverageIsBounded(Samples(steps, i), lo, hi);
  }

  lemma SrttIsMillis(servers: seq<RootServer>, steps: seq<ServerStep>, i: nat)
    requires Fresh(servers) && i < |servers|
    ensures Run(servers, steps)[i].srtt <= MAX_MILLIS
  {
    SrttIsAverage(servers, steps, i);
    SamplesAreMillis(steps, i);
    if Samples(steps, i) != [] {
      SrttIsBounded(servers, steps, i, 0, MAX_MILLIS);
    }
  }

  lemma {:induction false} AverageOfEqual(srtt: size, m: size, samples: seq<size>)
    requires forall k :: 0 <= k < |samples| ==> samples[k] == m
    ensures Averaged(srtt, samples) == Repeated(srtt, m, |samples|)
    decreases |samples|
  {
    if samples != [] {
      AverageOfEqual(srtt, m, samples[..|samples| - 1]);
    }
  }

  /** Once server `i` only ever answers in `m` milliseconds, its SRTT is within [m - 7, m] after
      at most |srtt - m| more answers, and stays there, whatever the other servers do. */
  lemma SrttConverges(servers: seq<RootServer>, steps: seq<ServerStep>, more: seq<ServerStep>, i: nat, m: Millis)
    requires Fresh(servers) && i < |servers|
    requires forall k :: 0 <= k < |Samples(more, i)| ==> Samples(more, i)[k] == m
    requires |Samples(more, i)| >= Distance(Run(servers, steps)[i].srtt, m)
    ensures Settled(Run(servers, steps + more)[i].srtt, m)
  {
    var now := Run(servers, steps);
    SrttIsMillis(servers, steps, i);
    RunInSequence(servers, steps, more);
    SrttIsAverage(now, more, i);
    AverageOfEqual(now[i].srtt, m, Samples(more, i));
    AverageConverges(now[i].srtt, m, |Samples(more, i)|);
  }

  // ----- Selection -----

  predicate HasStatus(servers: seq<RootServer>, status: Status) {
    exists i :: 0 <= i < |servers| && servers[i].status == status
  }

  /** The category for one roll of 1 to 100. */
  function SelectedCategory(servers: seq<RootServer>, roll: nat): Category {
    if !HasStatus(servers, SUCCESS) && HasStatus(servers, UNKNOWN) then UNTESTED
    else if HasStatus(servers, UNKNOWN) && roll <= 10 then UNTESTED
    else if roll <= 20 then SLOW_BAND
    else FAST_BAND
  }

  /** The least SRTT of the servers that answered last, or the greatest word if none did. */
  ghost predicate IsLeastSrtt(servers: seq<RootServer>, least: size) {
    && (forall i :: 0 <= i < |servers| && servers[i].status == SUCCESS ==> least <= servers[i].srtt)
    && (least == SIZE_MAX || exists i :: 0 <= i < |servers| && servers[i].status == SUCCESS && servers[i].srtt == least)
  }

  function FastLimit(least: size): size {
    if least == SIZE_MAX then 0 else (least + least / 4) % SIZE_LIMIT
  }

  predicate InCategory(s: RootServer, category: Category, fastLimit: size) {
    match category
    case UNTESTED => s.status == UNKNOWN
    case FAST_BAND => s.status == SUCCESS && s.srtt <= fastLimit
    case SLOW_BAND => s.status == SUCCESS && s.srtt > fastLimit
  }

  /** The two bands partition the servers that answered last. */
  lemma BandsPartition(s: RootServer, fastLimit: size)
    ensures InCategory(s, FAST_BAND, fastLimit) || InCategory(s, SLOW_BAND, fastLimit) <==> s.status == SUCCESS
    ensures !(InCategory(s, FAST_BAND, fastLimit) && InCategory(s, SLOW_BAND, fastLimit))
  {
  }

  /** The fast band is nonempty exactly when some server answered last and the limit did not overflow. */
  lemma FastBandNonemptyIff(servers: seq<RootServer>, least: size)
    requires IsLeastSrtt(servers, least)
    ensures (exists i :: 0 <= i < |servers| && InCategory(servers[i], FAST_BAND, FastLimit(least)))
      <==> HasStatus(servers, SUCCESS) && least + least / 4 < SIZE_LIMIT
  {
  }

  ghost predicate CategoryHasServer(servers: seq<RootServer>, category: Category, fastLimit: size) {
    exists i :: 0 <= i < |servers| && InCategory(servers[i], category, fastLimit)
  }

  /** In no run the limit overflows: the fast band has a server whenever some server answered last. */
  lemma FastBandServesSuccess(servers: seq<RootServer>, steps: seq<ServerStep>, least: size)
    requires Fresh(servers) && IsLeastSrtt(Run(servers, steps), least)
    ensures var now := Run(servers, steps);
      CategoryHasServer(now, FAST_BAND, FastLimit(least)) <==> HasStatus(now, SUCCESS)
  {
    var now := Run(servers, steps);
    forall i | 0 <= i < |now|
      ensures now[i].srtt <= MAX_MILLIS
    {
      SrttIsMillis(servers, steps, i);
    }
    FastBandNonemptyIff(now, least);
  }

  /** In every run the category selected has a server to choose, unless it is the slow band or
      every server is FAIL; and the slow band is selected without any server that answered last
      only when every server is FAIL. */
  lemma SelectedCategoryHasServer(servers: seq<RootServer>, steps: seq<ServerStep>, roll: nat, least: size)
    requires Fresh(servers) && IsLeastSrtt(Run(servers, steps), least)
    ensures var now := Run(servers, steps);
      var category := SelectedCategory(now, roll);
      && (category == UNTESTED || category == FAST_BAND ==>
           (CategoryHasServer(now, category, FastLimit(least)) <==> exists i :: 0 <= i < |now| && now[i].status != FAIL))
      && (category == SLOW_BAND && !HasStatus(now, SUCCESS) ==> forall i :: 0 <= i < |now| ==> now[i].status == FAIL)
  {
    var now := Run(servers, steps);
    FastBandServesSuccess(servers, steps, least);
    if HasStatus(now, UNKNOWN) {
      var i :| 0 <= i < |now| && now[i].status == UNKNOWN;
      assert InCategory(now[i], UNTESTED, FastLimit(least));
    }
  }

  ghost predicate Untried(s: RootServer, tried: seq<Address>) {
    s.address !in tried
  }

  /** Server `i` may be chosen: an untried one of the category; failing that, any untried one
      that is not FAIL; failing that, any untried one. */
  ghost predicate Eligible(servers: seq<RootServer>, category: Category, fastLimit: size, tried: seq<Address>, i: nat) {
    && i < |servers| && Untried(servers[i], tried)
    && (InCategory(servers[i], category, fastLimit)
        || (&& (forall j :: 0 <= j < |servers| && Untried(servers[j], tried) ==> !InCategory(servers[j], category, fastLimit))
            && (servers[i].status != FAIL
                || forall j :: 0 <= j < |servers| && Untried(servers[j], tried) ==> servers[j].status == FAIL)))
  }

  /** One attempt: what other threads did before the choice; the servers as they were at the
      moment of choice, the roll, the least SRTT and the choice; then what other threads did
      during the exchange, and how it went. */
  datatype Attempt = Attempt(before: seq<ServerStep>, servers: seq<RootServer>, roll: nat, least: size, index: nat,
                             others: seq<ServerStep>, exchange: Exchange)

  ghost function TriedBefore(log: seq<Attempt>, n: nat): (tried: seq<Address>)
    requires n <= |log| && forall k :: 0 <= k < |log| ==> log[k].index < |log[k].servers|
    ensures |tried| == n && forall k :: 0 <= k < n ==> tried[k] == log[k].servers[log[k].index].address
  {
    seq(n, k requires 0 <= k < n => log[k].servers[log[k].index].address)
  }

  ghost predicate ValidLog(log: seq<Attempt>) {
    && (forall k :: 0 <= k < |log| ==> log[k].index < |log[k].servers|)
    && (forall k :: 0 <= k < |log| ==>
         && 1 <= log[k].roll <= 100 && IsLeastSrtt(log[k].servers, log[k].least)
         && Eligible(log[k].servers, SelectedCategory(log[k].servers, log[k].roll), FastLimit(log[k].least),
                     TriedBefore(log, k), log[k].index))
  }

  lemma QuarterSlower(x: nat, least: size)
    requires least <= MAX_MILLIS
    ensures x <= FastLimit(least) <==> 4 * x <= 5 * least
  {
  }

  lemma FastestDecides(servers: seq<RootServer>, least: size, i: nat)
    requires IsLeastSrtt(servers, least) && i < |servers| && servers[i].status == SUCCESS && servers[i].srtt <= MAX_MILLIS
    ensures least <= MAX_MILLIS
    ensures 4 * servers[i].srtt <= 5 * least <==>
      forall j :: 0 <= j < |servers| && servers[j].status == SUCCESS ==> 4 * servers[i].srtt <= 5 * servers[j].srtt
  {
    var k :| 0 <= k < |servers| && servers[k].status == SUCCESS && servers[k].srtt == least;
  }

  /** The fast band holds the servers that answered last and are at most a quarter slower than the
      fastest of them, the slow band the others that answered last: in every run. */
  lemma FastBandIff(servers: seq<RootServer>, steps: seq<ServerStep>, least: size, i: nat)
    requires Fresh(servers) && IsLeastSrtt(Run(servers, steps), least) && i < |servers|
    ensures var now := Run(servers, steps);
      var s, limit := now[i], FastLimit(least);
      var fast := forall j :: 0 <= j < |now| && now[j].status == SUCCESS ==> 4 * s.srtt <= 5 * now[j].srtt;
      && (InCategory(s, FAST_BAND, limit) <==> s.status == SUCCESS && fast)
      && (InCategory(s, SLOW_BAND, limit) <==> s.status == SUCCESS && !fast)
      && (InCategory(s, UNTESTED, limit) <==> s.status == UNKNOWN)
  {
    hide Run, IsLeastSrtt, FastLimit;
    var now := Run(servers, steps);
    SrttIsMillis(servers, steps, i);
    if now[i].status == SUCCESS {
      FastestDecides(now, least, i);
      QuarterSlower(now[i].srtt, least);
    }
  }

  /** The choice is from the first tier that has an untried server: the category selected; else the
      servers that are not FAIL; else all.  And the category is that of the statuses and the roll. */
  lemma ChosenFromFirstTier(log: seq<Attempt>, k: nat, i: nat)
    requires ValidLog(log) && k < |log| && i < |log[k].servers|
    requires forall j :: 0 <= j < k ==> log[j].servers[log[j].index].address != log[k].servers[i].address
    ensures var a := log[k];
      var chosen, other, limit := a.servers[a.index], a.servers[i], FastLimit(a.least);
      var hasUnknown := exists j :: 0 <= j < |a.servers| && a.servers[j].status == UNKNOWN;
      var hasSuccess := exists j :: 0 <= j < |a.servers| && a.servers[j].status == SUCCESS;
      var category := if hasUnknown && (!hasSuccess || a.roll <= 10) then UNTESTED
        else if a.roll <= 20 then SLOW_BAND else FAST_BAND;
      && (InCategory(other, category, limit) ==> InCategory(chosen, category, limit))
      && (other.status != FAIL ==> chosen.status != FAIL)
  {
    hide IsLeastSrtt, FastLimit;
    assert Untried(log[k].servers[i], TriedBefore(log, k));
  }

  /** Within one call no address is tried twice. */
  lemma NoAddressTwice(log: seq<Attempt>, j: nat, k: nat)
    requires ValidLog(log) && j < k < |log|
    ensures log[j].servers[log[j].index].address != log[k].servers[log[k].index].address
  {
  }

  /** A FAIL server is chosen only when every address that is not FAIL at that moment was tried. */
  lemma FailedOnlyAsLastResort(log: seq<Attempt>, k: nat, i: nat)
    requires ValidLog(log) && k < |log| && log[k].servers[log[k].index].status == FAIL
    requires i < |log[k].servers| && log[k].servers[i].status != FAIL
    ensures exists j :: 0 <= j < k && log[j].servers[log[j].index].address == log[k].servers[i].address
  {
  }

  ghost function Addresses(servers: seq<RootServer>): set<Address> {
    set i | 0 <= i < |servers| :: servers[i].address
  }

  lemma SameAddresses(a: seq<RootServer>, b: seq<RootServer>)
    requires |a| == |b| && forall i :: 0 <= i < |a| ==> a[i].address == b[i].address
    ensures Addresses(a) == Addresses(b)
  {
  }

  function SetOf(tried: seq<Address>): set<Address> {
    set a | a in tried
  }

  const MAX_ATTEMPTS: nat := 5

  /** The change of status an attempt ends with: none if the query cannot be printed or the reply
      came from elsewhere, a success for a matching response, a failure otherwise. */
  function OwnSteps(index: nat, query: Packet, e: Exchange): seq<ServerStep> {
    if e.SocketFailed? then [Failed(index)]
    else if !CanPrint(Request(query)) || e.WrongSender? then []
    else if ResponseTo(query, e).Some? then [Answered(index, e.rtt)]
    else [Failed(index)]
  }

  // ----- What an exchange does to the server -----

  /** Only server `i` may differ, and not in its address. */
  ghost predicate OnlyTouches(before: seq<RootServer>, after: seq<RootServer>, i: nat) {
    && |after| == |before| && i < |before| && after[i].address == before[i].address
    && forall j :: 0 <= j < |before| && j != i ==> after[j] == before[j]
  }

  /** Server `i` answered in `rtt` milliseconds: SUCCESS, no failures, and an SRTT that is the first
      measurement, or moves an eighth of the way to the new one, rounded down. */
  ghost predicate CountsAsAnswer(before: seq<RootServer>, after: seq<RootServer>, i: nat, rtt: Millis) {
    && OnlyTouches(before, after, i) && after[i].status == SUCCESS && after[i].failures == 0
    && MovesAnEighth(before[i].srtt, rtt, after[i].srtt)
  }

  ghost predicate MovesAnEighth(srtt: size, sample: size, moved: size) {
    && (srtt == 0 ==> moved == sample)
    && (srtt != 0 && 8 * srtt < SIZE_LIMIT && 8 * sample < SIZE_LIMIT ==> 0 <= 7 * srtt + sample - 8 * moved < 8)
  }

  /** Server `i` failed: FAIL, one failure more (in a 32-bit counter), and the SRTT as it was. */
  ghost predicate CountsAsFailure(before: seq<RootServer>, after: seq<RootServer>, i: nat) {
    && OnlyTouches(before, after, i) && after[i].status == FAIL && after[i].srtt == before[i].srtt
    && (if before[i].failures == 0xFFFF_FFFF then after[i].failures == 0
        else after[i].failures == before[i].failures + 1)
  }

  /** How one exchange with server `i` ends, from the servers just before its last critical section:
      a response to the query counts as an answer; no socket, no reply or a useless one counts as a
      failure; a query that does not print, or a reply from elsewhere, changes nothing. */
  ghost predicate EndsAs(query: Packet, e: Exchange, before: seq<RootServer>, after: seq<RootServer>, i: nat) {
    if e.SocketFailed? then CountsAsFailure(before, after, i)
    else if e.WrongSender? || !CanPrint(Request(query)) then after == before
    else if exists p :: Brings(query, e, p) then CountsAsAnswer(before, after, i, e.rtt)
    else CountsAsFailure(before, after, i)
  }

  lemma EighthMoved(srtt: size, sample: size)
    ensures MovesAnEighth(srtt, sample, UpdatedSrtt(srtt, sample))
  {
  }

  lemma RunOnce(servers: seq<RootServer>, step: ServerStep)
    ensures Run(servers, [step]) == Apply(servers, step)
  {
    assert [step][..0] == [];
  }

  lemma FailureCounts(servers: seq<RootServer>, i: nat)
    requires i < |servers|
    ensures CountsAsFailure(servers, Run(servers, [Failed(i)]), i)
  {
    hide Run;
    RunOnce(servers, Failed(i));
  }

  lemma AnswerCounts(servers: seq<RootServer>, i: nat, rtt: Millis)
    requires i < |servers|
    ensures CountsAsAnswer(servers, Run(servers, [Answered(i, rtt)]), i, rtt)
  {
    hide Run, UpdatedSrtt, MovesAnEighth;
    RunOnce(servers, Answered(i, rtt));
    EighthMoved(servers[i].srtt, rtt);
  }

  /** Whatever other threads did meanwhile, the attempt itself ends as the exchange calls for. */
  lemma AttemptEndsAs(query: Packet, e: Exchange, servers: seq<RootServer>, i: nat)
    requires i < |servers|
    ensures EndsAs(query, e, servers, Run(servers, OwnSteps(i, query, e)), i)
  {
    hide ResponseTo, Brings, CanPrint, Run, CountsAsAnswer, CountsAsFailure;
    RunNothing(servers);
    FailureCounts(servers, i);
    if e.Reply? {
      AnswerCounts(servers, i, e.rtt);
    }
    forall p
      ensures ResponseTo(query, e) == Some(p) <==> Brings(query, e, p)
    {
      ResponseToIff(query, e, p);
    }
    if ResponseTo(query, e).Some? {
      assert Brings(query, e, ResponseTo(query, e).value);
      BroughtByReply(query, e, ResponseTo(query, e).value);
    }
  }

  lemma BringsOrNot(query: Packet, e: Exchange)
    ensures var r := ResponseTo(query, e);
      if r.Some? then Brings(query, e, r.value) else forall p :: !Brings(query, e, p)
  {
    hide ResponseTo, Brings;
    forall p
      ensures ResponseTo(query, e) == Some(p) <==> Brings(query, e, p)
    {
      ResponseToIff(query, e, p);
    }
  }

  lemma BroughtByReply(query: Packet, e: Exchange, p: Packet)
    requires Brings(query, e, p)
    ensures e.Reply?
  {
  }

  /** The same for every attempt of a whole call, up to the choice of the next. */
  lemma LoggedAttemptEndsAs(query: Packet, servers: seq<RootServer>, log: seq<Attempt>, k: nat)
    requires ValidLog(log) && MadeDuring(query, log, servers) && k + 1 < |log|
    ensures var before := Run(log[k].servers, log[k].others);
      exists after :: EndsAs(query, log[k].exchange, before, after, log[k].index)
        && log[k + 1].servers == Run(after, log[k + 1].before)
  {
    hide Run, OwnSteps, StepsOf, EndsAs, Eligible;
    var a := log[k];
    var before := Run(a.servers, a.others);
    var after := Run(before, OwnSteps(a.index, query, a.exchange));
    AttemptEndsAs(query, a.exchange, before, a.index);
    RunInSequence(a.servers, a.others, OwnSteps(a.index, query, a.exchange));
    RunInSequence(servers, StepsOf(query, log, k) + a.before, DuringAttempt(query, a));
    StepsOfNext(query, log, k);
    RunInSequence(servers, StepsOf(query, log, k + 1), log[k + 1].before);
  }

  lemma StepsOfNext(query: Packet, log: seq<Attempt>, k: nat)
    requires k < |log|
    ensures StepsOf(query, log, k + 1) == StepsOf(query, log, k) + log[k].before + DuringAttempt(query, log[k])
  {
    hide DuringAttempt;
  }

  ghost function ChosenBefore(log: seq<Attempt>): seq<Address>
    requires ValidLog(log)
  {
    TriedBefore(log, |log|)
  }

  lemma LogGrows(log: seq<Attempt>, a: Attempt, tried: seq<Address>)
    requires ValidLog(log) && ChosenBefore(log) == tried && a.index < |a.servers|
    requires 1 <= a.roll <= 100 && IsLeastSrtt(a.servers, a.least)
    requires Eligible(a.servers, SelectedCategory(a.servers, a.roll), FastLimit(a.least), tried, a.index)
    ensures ValidLog(log + [a])
    ensures ChosenBefore(log + [a]) == tried + [a.servers[a.index].address]
  {
    var longer := log + [a];
    forall k | 0 <= k <= |log|
      ensures TriedBefore(longer, k) == TriedBefore(log, k)
    {
    }
    forall k | 0 <= k < |longer|
      ensures && 1 <= longer[k].roll <= 100 && IsLeastSrtt(longer[k].servers, longer[k].least)
              && Eligible(longer[k].servers, SelectedCategory(longer[k].servers, longer[k].roll),
                          FastLimit(longer[k].least), TriedBefore(longer, k), longer[k].index)
    {
      if k < |log| { assert longer[k] == log[k]; }
    }
  }

  lemma RunKeepsAddresses(servers: seq<RootServer>, steps: seq<ServerStep>)
    ensures Addresses(Run(servers, steps)) == Addresses(servers)
  {
    forall i | 0 <= i < |servers|
      ensures Run(servers, steps)[i].address == servers[i].address
    {
      NeverUnknownAgain(servers, steps, i);
    }
    SameAddresses(Run(servers, steps), servers);
  }

  lemma {:induction false} SubsetIsSmaller(a: set<Address>, b: set<Address>)
    requires a <= b
    ensures |a| <= |b|
  {
    if a != {} {
      var x :| x in a;
      SubsetIsSmaller(a - {x}, b - {x});
    }
  }

  /** All changes to the servers during the first `n` attempts. */
  ghost function StepsOf(query: Packet, log: seq<Attempt>, n: nat): seq<ServerStep>
    requires n <= |log|
  {
    if n == 0 then []
    else StepsOf(query, log, n - 1) + log[n - 1].before + DuringAttempt(query, log[n - 1])
  }

  /** What happens to the servers from the choice to the end of the attempt. */
  ghost function DuringAttempt(query: Packet, a: Attempt): seq<ServerStep> {
    a.others + OwnSteps(a.index, query, a.exchange)
  }

  /** Every choice was made on the state that the attempts before it, and the other threads
      since, had led to. */
  ghost predicate MadeDuring(query: Packet, log: seq<Attempt>, servers: seq<RootServer>) {
    forall k :: 0 <= k < |log| ==> log[k].servers == Run(servers, StepsOf(query, log, k) + log[k].before)
  }

  /** No attempt but possibly the last had a response. */
  ghost predicate FailedBefore(query: Packet, log: seq<Attempt>, n: int) {
    forall k :: 0 <= k < n && k < |log| ==> ResponseTo(query, log[k].exchange).None?
  }

  /** A whole call: every choice eligible on the state it was made on, whatever other threads did
      before and during each attempt; it ends with the first response, or after
      min(5, number of distinct addresses) attempts. */
  ghost predicate RootsAsked(query: Packet, servers: seq<RootServer>, log: seq<Attempt>, response: Packet) {
    && ValidLog(log) && |log| <= MAX_ATTEMPTS && MadeDuring(query, log, servers)
    && FailedBefore(query, log, |log| - 1)
    && if log != [] && ResponseTo(query, log[|log| - 1].exchange).Some? then
         response == ReplyOf(query, log[|log| - 1].exchange)
       else
         response == EMPTY_PACKET && |log| == Min(MAX_ATTEMPTS, |Addresses(servers)|)
  }

  /** A call without a response made five attempts, or tried every address there is. */
  lemma GivesUpAfterFive(query: Packet, servers: seq<RootServer>, log: seq<Attempt>, response: Packet)
    requires RootsAsked(query, servers, log, response) && !response.header.IsResponse()
    ensures |log| == 5 || (|log| < 5 && |log| == |Addresses(servers)|)
    ensures forall k, p :: 0 <= k < |log| ==> !Brings(query, log[k].exchange, p)
  {
    hide ValidLog, MadeDuring, ResponseTo, Brings, Addresses;
    if log != [] && ResponseTo(query, log[|log| - 1].exchange).Some? {
      ResponseToIsWellFormed(query, log[|log| - 1].exchange);
      assert false;
    }
    forall k, p | 0 <= k < |log|
      ensures !Brings(query, log[k].exchange, p)
    {
      BringsOrNot(query, log[k].exchange);
    }
  }

  /** A response is what the last attempt brought, and no attempt before it brought any. */
  lemma ResponseIsTheFirst(query: Packet, servers: seq<RootServer>, log: seq<Attempt>, response: Packet)
    requires RootsAsked(query, servers, log, response) && response.header.IsResponse()
    ensures log != [] && Brings(query, log[|log| - 1].exchange, response)
    ensures forall k, p :: 0 <= k < |log| - 1 ==> !Brings(query, log[k].exchange, p)
  {
    hide ValidLog, MadeDuring, ResponseTo, Brings;
    BringsOrNot(query, log[|log| - 1].exchange);
    forall k, p | 0 <= k < |log| - 1
      ensures !Brings(query, log[k].exchange, p)
    {
      BringsOrNot(query, log[k].exchange);
    }
  }

  lemma NothingTried(query: Packet, servers: seq<RootServer>)
    ensures ValidLog([]) && ChosenBefore([]) == [] && DistinctFrom([], Addresses(servers))
    ensures MadeDuring(query, [], servers) && Run(servers, StepsOf(query, [], 0)) == servers
    ensures FailedBefore(query, [], 0)
  {
  }

  lemma {:induction false} StepsOfPrefix(query: Packet, log: seq<Attempt>, a: Attempt, n: nat)
    requires n <= |log|
    ensures StepsOf(query, log + [a], n) == StepsOf(query, log, n)
  {
    if n > 0 {
      StepsOfPrefix(query, log, a, n - 1);
    }
  }

  lemma AttemptMadeDuring(query: Packet, log: seq<Attempt>, a: Attempt, servers: seq<RootServer>, now: seq<RootServer>)
    requires MadeDuring(query, log, servers) && a.servers == Run(servers, StepsOf(query, log, |log|) + a.before)
    requires now == Run(a.servers, DuringAttempt(query, a))
    ensures MadeDuring(query, log + [a], servers)
    ensures now == Run(servers, StepsOf(query, log + [a], |log| + 1))
  {
    hide DuringAttempt, Run, StepsOf;
    var longer := log + [a];
    StepsOfLonger(query, log, a);
    RunInSequence(servers, StepsOf(query, log, |log|) + a.before, DuringAttempt(query, a));
    forall k | 0 <= k < |longer|
      ensures longer[k].servers == Run(servers, StepsOf(query, longer, k) + longer[k].before)
    {
      StepsOfPrefix(query, log, a, k);
      assert longer[k] == if k < |log| then log[k] else a;
    }
  }

  lemma StepsOfLonger(query: Packet, log: seq<Attempt>, a: Attempt)
    ensures StepsOf(query, log + [a], |log| + 1) == StepsOf(query, log, |log|) + a.before + DuringAttempt(query, a)
  {
    hide DuringAttempt;
    StepsOfPrefix(query, log, a, |log|);
  }

  ghost predicate DistinctFrom(tried: seq<Address>, all: set<Address>) {
    |SetOf(tried)| == |tried| && SetOf(tried) <= all
  }

  lemma TriedGrows(tried: seq<Address>, a: Address, all: set<Address>)
    requires DistinctFrom(tried, all) && a !in tried && a in all
    ensures DistinctFrom(tried + [a], all)
  {
    assert SetOf(tried + [a]) == SetOf(tried) + {a};
  }

  lemma AllTried(servers: seq<RootServer>, tried: seq<Address>)
    requires DistinctFrom(tried, Addresses(servers))
    requires forall i :: 0 <= i < |servers| ==> !Untried(servers[i], tried)
    ensures |tried| == |Addresses(servers)|
  {
    forall a | a in Addresses(servers)
      ensures a in SetOf(tried)
    {
      var i :| 0 <= i < |servers| && servers[i].address == a;
      assert !Untried(servers[i], tried);
    }
    assert SetOf(tried) == Addresses(servers);
  }

  lemma TriedBound(tried: seq<Address>, all: set<Address>)
    requires DistinctFrom(tried, all)
    ensures |tried| <= |all|
  {
    SubsetIsSmaller(SetOf(tried), all);
  }

  // ----- Probing -----

  function ProbeQuery(id: u16): Packet {
    EMPTY_PACKET.(header := EMPTY_PACKET.header.(id := id).SetRecursionDesired(false))
      .SetQuestion(Question([46], TYPE_SOA, 1))
  }

  /** The probe query always fits its buffer: printing it cannot throw. */
  lemma ProbeQueryPrints(id: u16)
    ensures EncodePacket(ProbeQuery(id)).error.None? && |EncodePacket(ProbeQuery(id)).bytes| == 17
  {
  }

  /** The change of status a probe ends with. */
  function ProbeSteps(index: nat, id: u16, e: Exchange): seq<ServerStep> {
    if !e.Reply? then []
    else match ReadPacket(e.bytes, 0)
      case Fail(_, _) => []
      case Ok(p, _) => if p.header.id == id && p.header.IsResponse() then [Answered(index, e.rtt)] else []
  }

  /** The bytes hold a response with that ID. */
  ghost predicate AnswersProbe(id: u16, e: Exchange) {
    e.Reply? && exists p, q: nat :: PacketAt(e.bytes, 0, p, q) && p.header.id == id && p.header.IsResponse()
  }

  /** A probe that is answered counts as an answer; any other changes nothing. */
  ghost predicate ProbeEndsAs(id: u16, e: Exchange, before: seq<RootServer>, after: seq<RootServer>, i: nat) {
    if AnswersProbe(id, e) then CountsAsAnswer(before, after, i, e.rtt) else after == before
  }

  lemma ProbeCounts(id: u16, e: Exchange, servers: seq<RootServer>, i: nat)
    requires i < |servers|
    ensures ProbeEndsAs(id, e, servers, Run(servers, ProbeSteps(i, id, e)), i)
  {
    hide ReadPacket, PacketAt, Run, CountsAsAnswer;
    RunNothing(servers);
    if e.Reply? {
      AnswerCounts(servers, i, e.rtt);
      forall p, q: nat
        ensures ReadPacket(e.bytes, 0) == Ok(p, q) <==> PacketAt(e.bytes, 0, p, q)
      {
        PacketIff(e.bytes, 0, p, q);
      }
      if ReadPacket(e.bytes, 0).Ok? {
        assert PacketAt(e.bytes, 0, ReadPacket(e.bytes, 0).value, ReadPacket(e.bytes, 0).next);
      }
    }
  }

  /** The probing thread's turn at one server. */
  datatype Visit = Visit(before: seq<ServerStep>, failed: bool, during: seq<ServerStep>, id: u16, exchange: Exchange)

  ghost function VisitedSteps(visits: seq<Visit>, n: nat): seq<ServerStep>
    requires n <= |visits|
  {
    if n == 0 then [] else VisitedSteps(visits, n - 1) + visits[n - 1].before + OwnProbe(n - 1, visits[n - 1])
  }

  /** Exactly the servers that are FAIL when their turn comes are probed. */
  ghost predicate ProbedWhenFailed(visits: seq<Visit>, servers: seq<RootServer>) {
    forall k :: 0 <= k < |visits| && k < |servers| ==>
      (visits[k].failed <==> Run(servers, VisitedSteps(visits, k) + visits[k].before)[k].status == FAIL)
  }

  lemma RunNothing(servers: seq<RootServer>)
    ensures Run(servers, []) == servers
  {
  }

  lemma NothingVisited(servers: seq<RootServer>)
    ensures Run(servers, VisitedSteps([], 0)) == servers && ProbedWhenFailed([], servers)
  {
  }

  lemma {:induction false} VisitedPrefix(visits: seq<Visit>, v: Visit, n: nat)
    requires n <= |visits|
    ensures VisitedSteps(visits + [v], n) == VisitedSteps(visits, n)
  {
    if n > 0 {
      VisitedPrefix(visits, v, n - 1);
    }
  }

  /** What the visit to server `index` does on its own. */
  ghost function OwnProbe(index: nat, v: Visit): seq<ServerStep> {
    if v.failed then v.during + ProbeSteps(index, v.id, v.exchange) else []
  }

  lemma VisitKeepsProbes(visits: seq<Visit>, v: Visit, servers: seq<RootServer>)
    requires ProbedWhenFailed(visits, servers) && |visits| < |servers|
    requires v.failed <==> Run(servers, VisitedSteps(visits, |visits|) + v.before)[|visits|].status == FAIL
    ensures ProbedWhenFailed(visits + [v], servers)
  {
    hide Run, VisitedSteps;
    var longer := visits + [v];
    forall k | 0 <= k < |longer|
      ensures longer[k].failed <==> Run(servers, VisitedSteps(longer, k) + longer[k].before)[k].status == FAIL
    {
      VisitedPrefix(visits, v, k);
      if k < |visits| {
        assert longer[k] == visits[k];
      } else {
        assert longer[k] == v;
      }
    }
  }

  lemma VisitRuns(visits: seq<Visit>, v: Visit, servers: seq<RootServer>, now: seq<RootServer>)
    requires now == Run(Run(servers, VisitedSteps(visits, |visits|) + v.before), OwnProbe(|visits|, v))
    ensures now == Run(servers, VisitedSteps(visits + [v], |visits| + 1))
  {
    hide Run, OwnProbe, VisitedSteps;
    VisitedLonger(visits, v);
    RunInSequence(servers, VisitedSteps(visits, |visits|) + v.before, OwnProbe(|visits|, v));
  }

  lemma VisitedLonger(visits: seq<Visit>, v: Visit)
    ensures VisitedSteps(visits + [v], |visits| + 1) == VisitedSteps(visits, |visits|) + v.before + OwnProbe(|visits|, v)
  {
    hide OwnProbe;
    VisitedPrefix(visits, v, |visits|);
  }

  // ----- The manager -----

  class RootServerManager {
    var servers: seq<RootServer>

    /** The configured addresses, in order; the original refuses an empty configuration. */
    constructor (addresses: seq<Address>)
      ensures |servers| == |addresses| && Fresh(servers)
      ensures forall i :: 0 <= i < |servers| ==> servers[i].address == addresses[i]
    {
      servers := seq(|addresses|, i requires 0 <= i < |addresses| => RootServer(addresses[i], UNKNOWN, 0, 0));
    }

    /** UNTESTED only if a server is untested, always if none other is left to prefer; otherwise a
        band, the slow one for the low rolls. */
    method SelectCategory() returns (category: Category, roll: nat)
      ensures 1 <= roll <= 100 && category == SelectedCategory(servers, roll)
      ensures category == UNTESTED <==> HasStatus(servers, UNKNOWN) && (!HasStatus(servers, SUCCESS) || roll <= 10)
      ensures category == SLOW_BAND ==> roll <= 20
      ensures category == FAST_BAND ==> roll > 20
    {
      var hasUnknown := HasStatus(servers, UNKNOWN);
      var hasSuccess := HasStatus(servers, SUCCESS);
      roll :| 1 <= roll <= 100;
      if !hasSuccess && hasUnknown {
        return UNTESTED, roll;
      }
      if hasUnknown && roll <= 10 {
        return UNTESTED, roll;
      }
      category := if roll <= 20 then SLOW_BAND else FAST_BAND;
    }

    method GetLeastSRTT() returns (least: size)
      ensures IsLeastSrtt(servers, least)
    {
      least := SIZE_MAX;
      for i := 0 to |servers|
        invariant forall j :: 0 <= j < i && servers[j].status == SUCCESS ==> least <= servers[j].srtt
        invariant least == SIZE_MAX || exists j :: 0 <= j < i && servers[j].status == SUCCESS && servers[j].srtt == least
      {
        if servers[i].status == SUCCESS && servers[i].srtt < least {
          least := servers[i].srtt;
        }
      }
    }

    method GetCandidates(category: Category, least: size) returns (candidates: seq<nat>)
      ensures forall i :: i in candidates <==> 0 <= i < |servers| && InCategory(servers[i], category, FastLimit(least))
    {
      candidates := [];
      var fastLimit := FastLimit(least);
      for i := 0 to |servers|
        invariant forall j :: j in candidates <==> 0 <= j < i && InCategory(servers[j], category, fastLimit)
      {
        if InCategory(servers[i], category, fastLimit) {
          candidates := candidates + [i];
        }
      }
    }

    method RemoveTried(candidates: seq<nat>, tried: seq<Address>) returns (left: seq<nat>)
      requires forall k :: 0 <= k < |candidates| ==> candidates[k] < |servers|
      ensures forall i :: i in left <==> i in candidates && i < |servers| && Untried(servers[i], tried)
    {
      left := [];
      for k := 0 to |candidates|
        invariant forall i :: i in left <==> i in candidates[..k] && i < |servers| && Untried(servers[i], tried)
      {
        if servers[candidates[k]].address !in tried {
          left := left + [candidates[k]];
        }
      }
      assert candidates[..|candidates|] == candidates;
    }

    method UntriedServers(tried: seq<Address>, evenFailed: bool) returns (candidates: seq<nat>)
      ensures forall i :: i in candidates <==>
        0 <= i < |servers| && Untried(servers[i], tried) && (evenFailed || servers[i].status != FAIL)
    {
      candidates := [];
      for i := 0 to |servers|
        invariant forall j :: j in candidates <==>
          0 <= j < i && Untried(servers[j], tried) && (evenFailed || servers[j].status != FAIL)
      {
        if (evenFailed || servers[i].status != FAIL) && servers[i].address !in tried {
          candidates := candidates + [i];
        }
      }
    }

    /** The critical section that picks the next server, or finds that none is left. */
    method Select(tried: seq<Address>) returns (choice: Option<nat>, ghost attempt: Attempt)
      ensures attempt.servers == servers && 1 <= attempt.roll <= 100 && IsLeastSrtt(servers, attempt.least)
      ensures choice.Some? ==> attempt.index == choice.value
      ensures choice.Some? ==>
        Eligible(servers, SelectedCategory(servers, attempt.roll), FastLimit(attempt.least), tried, choice.value)
      ensures choice.None? ==> forall i :: 0 <= i < |servers| ==> !Untried(servers[i], tried)
    {
      var category, roll := SelectCategory();
      var least := GetLeastSRTT();
      attempt := Attempt([], servers, roll, least, 0, [], NoReply);
      var candidates := GetCandidates(category, least);
      assert forall k :: 0 <= k < |candidates| ==> candidates[k] in candidates;
      candidates := RemoveTried(candidates, tried);
      if candidates == [] {
        assert forall j :: 0 <= j < |servers| && Untried(servers[j], tried) ==>
          !InCategory(servers[j], category, FastLimit(least)) by {
          forall j | 0 <= j < |servers| && Untried(servers[j], tried)
            ensures !InCategory(servers[j], category, FastLimit(least))
          {
            assert j !in candidates;
          }
        }
        candidates := UntriedServers(tried, false);
        if candidates == [] {
          assert forall j :: 0 <= j < |servers| && Untried(servers[j], tried) ==> servers[j].status == FAIL by {
            forall j | 0 <= j < |servers| && Untried(servers[j], tried)
              ensures servers[j].status == FAIL
            {
              assert j !in candidates;
            }
          }
          candidates := UntriedServers(tried, true);
        }
      }
      if candidates == [] {
        forall i | 0 <= i < |servers|
          ensures !Untried(servers[i], tried)
        {
          assert i !in candidates;
        }
        return None, attempt;
      }
      var k :| 0 <= k < |candidates|;
      assert candidates[k] in candidates;
      attempt := attempt.(index := candidates[k]);
      choice := Some(candidates[k]);
    }

    /** What other threads do while this one does not hold the mutex. */
    method Interfere() returns (ghost steps: seq<ServerStep>)
      modifies this
      ensures servers == Run(old(servers), steps)
    {
      var others: seq<ServerStep> := *;
      servers := Run(servers, others);
      steps := others;
    }

    method Record(step: ServerStep)
      modifies this
      ensures servers == Run(old(servers), [step])
    {
      assert [step][..0] == [];
      servers := Apply(servers, step);
    }

    /** One attempt at a server: the exchange, and the critical section it ends with. */
    method Try(query: Packet, index: nat) returns (r: Option<Packet>, ghost others: seq<ServerStep>, ghost e: Exchange)
      requires index < |servers|
      modifies this
      ensures servers == Run(old(servers), others + OwnSteps(index, query, e))
      ensures EndsAs(query, e, Run(old(servers), others), servers, index)
      ensures if r.Some? then Brings(query, e, r.value) else forall p :: !Brings(query, e, p)
      ensures r == ResponseTo(query, e)
    {
      hide Run, ReadPacket, EncodePacket, Request, EndsAs, Brings;
      var exchange := Choose();
      e := exchange;
      others := Interfere();
      RunInSequence(old(servers), others, OwnSteps(index, query, e));
      AttemptEndsAs(query, e, servers, index);
      BringsOrNot(query, e);
      RunNothing(servers);
      if exchange.SocketFailed? {
        Record(Failed(index));
        return None, others, e;
      }
      var request := Encode(Request(query), MAX_BUFFER_SIZE);
      if request.Failure? || exchange.WrongSender? {
        return None, others, e;
      }
      if !exchange.Reply? {
        Record(Failed(index));
        return None, others, e;
      }
      var decoded := Decode(exchange.bytes, MAX_BUFFER_SIZE);
      if decoded.Success? && decoded.value.header.IsResponse() && decoded.value.header.id == query.header.id {
        Record(Answered(index, exchange.rtt));
        return Some(decoded.value), others, e;
      }
      Record(Failed(index));
      return None, others, e;
    }

    /** Asks up to five root servers, each at most once, until one answers.  The log says what
        was chosen on which state, and accounts for every change to the servers meanwhile; `idle`
        is what other threads did before a last look that found every address tried. */
    method AskRootServer(query: Packet)
      returns (response: Packet, ghost log: seq<Attempt>, ghost idle: seq<ServerStep>)
      modifies this
      ensures RootsAsked(query, old(servers), log, response)
      ensures servers == Run(old(servers), StepsOf(query, log, |log|) + idle)
      ensures |log| == MAX_ATTEMPTS || response != EMPTY_PACKET ==> idle == []
      ensures response == EMPTY_PACKET || UpstreamResponse(response, query)
    {
      hide ValidLog, TriedBefore, Run, ResponseTo, OwnSteps, UpstreamResponse, MadeDuring,
        IsLeastSrtt, SelectedCategory, FastLimit, InCategory, StepsOf, ChosenBefore, DistinctFrom, SetOf, EndsAs, Brings;
      var tried: seq<Address> := [];
      log, idle := [], [];
      NothingTried(query, servers);
      var attempt := 0;
      while attempt < MAX_ATTEMPTS
        invariant attempt <= MAX_ATTEMPTS && |log| == |tried| == attempt
        invariant MadeDuring(query, log, old(servers)) && servers == Run(old(servers), StepsOf(query, log, |log|))
        invariant ValidLog(log) && ChosenBefore(log) == tried && FailedBefore(query, log, |log|)
        invariant DistinctFrom(tried, Addresses(old(servers)))
      {
        ghost var before := Interfere();
        RunInSequence(old(servers), StepsOf(query, log, |log|), before);
        RunKeepsAddresses(old(servers), StepsOf(query, log, |log|) + before);
        var choice, chosen := Select(tried);
        if choice.None? {
          AllTried(servers, tried);
          idle := before;
          break;
        }
        var address := servers[choice.value].address;
        assert address in Addresses(servers);
        TriedGrows(tried, address, Addresses(old(servers)));
        tried := tried + [address];
        var r, others, e := Try(query, choice.value);
        chosen := chosen.(before := before, others := others, exchange := e);
        LogGrows(log, chosen, tried[..|tried| - 1]);
        AttemptMadeDuring(query, log, chosen, old(servers), servers);
        log := log + [chosen];
        if r.Some? {
          ResponseToIsWellFormed(query, e);
          assert StepsOf(query, log, |log|) + [] == StepsOf(query, log, |log|);
          return r.value, log, [];
        }
        attempt := attempt + 1;
      }
      assert StepsOf(query, log, |log|) + [] == StepsOf(query, log, |log|);
      TriedBound(tried, Addresses(old(servers)));
      response := EMPTY_PACKET;
    }

    /** The probing thread: it goes through the servers in order, and asks each one that is FAIL
        when its turn comes for the root SOA; those that answer are marked. */
    method ProbeFailedServers() returns (ghost visits: seq<Visit>)
      modifies this
      ensures |visits| == |old(servers)| && servers == Run(old(servers), VisitedSteps(visits, |visits|))
      ensures ProbedWhenFailed(visits, old(servers))
    {
      hide Run, ProbeSteps, VisitedSteps, ProbedWhenFailed;
      visits := [];
      NothingVisited(servers);
      for i := 0 to |servers|
        invariant |visits| == i && |servers| == |old(servers)|
        invariant servers == Run(old(servers), VisitedSteps(visits, i))
        invariant ProbedWhenFailed(visits, old(servers))
      {
        ghost var before := Interfere();
        RunInSequence(old(servers), VisitedSteps(visits, i), before);
        ghost var v := Visit(before, servers[i].status == FAIL, [], 0, NoReply);
        if servers[i].status == FAIL {
          ghost var during, id, e;
          during, id, e := ProbeServer(i);
          v := Visit(before, true, during, id, e);
        } else {
          RunNothing(servers);
        }
        VisitKeepsProbes(visits, v, old(servers));
        VisitRuns(visits, v, old(servers), servers);
        visits := visits + [v];
      }
    }

    method ProbeServer(index: nat) returns (ghost others: seq<ServerStep>, ghost id: u16, ghost e: Exchange)
      requires index < |servers|
      modifies this
      ensures servers == Run(old(servers), others + ProbeSteps(index, id, e))
      ensures ProbeEndsAs(id, e, Run(old(servers), others), servers, index)
    {
      hide Run, ReadPacket, EncodePacket, ProbeQuery, ProbeEndsAs;
      var exchange := Choose();
      var random: int := *;
      var queryId: u16 := if 0 <= random < 0x1_0000 then random else 0;
      e, id := exchange, queryId;
      others := Interfere();
      RunInSequence(old(servers), others, ProbeSteps(index, id, e));
      ProbeCounts(id, e, servers, index);
      RunNothing(servers);
      var request := Encode(ProbeQuery(queryId), DEFAULT_BUFFER_SIZE);
      assert request.Success? by { ProbeQueryPrints(queryId); }
      if exchange.Reply? {
        var decoded := Decode(exchange.bytes, DEFAULT_BUFFER_SIZE);
        if decoded.Success? && decoded.value.header.id == queryId && decoded.value.header.IsResponse() {
          Record(Answered(index, exchange.rtt));
        }
      }
    }
  }
}
