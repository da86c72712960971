/**
 The TTL cache with lazy expiry.

 `Step` says what each operation does to the map and the counters and what it answers; the
 methods of `DnsCache` are tied to it.  The lemmas are about whole runs: lazy expiry answers as a
 cache that purges at every tick would, and nothing is served past the TTLs it was stored with.
 */
module Cache {
  import opened Wire
  import opened Names
  import opened Records

  datatype CacheResult = POSITIVE | NXDOMAIN | NODATA

  datatype Entry = Entry(records: seq<Record>, result: CacheResult, expiration: int) {
    predicate Expired(now: nat) { now >= expiration }
  }

  /** Clock ticks to the second: the steady clock counts nanoseconds. */
  const SECOND: nat := 1_000_000_000

  const DEFAULT_TTL: u32 := 60

  // ----- Keys -----

  datatype Key = Key(domain: Name, qtype: u16)

  function ToLower(c: byte): byte {
    if 65 <= c <= 90 then c + 32 else c
  }

  function Normalized(s: Name): (n: Name)
    ensures |n| == |s| && forall i :: 0 <= i < |s| ==> n[i] == ToLower(s[i])
  {
    seq(|s|, i requires 0 <= i < |s| => ToLower(s[i]))
  }

  function CacheKey(domain: Name, qtype: u16): Key {
    Key(Normalized(domain), qtype)
  }

  /** The key as its constructor makes it. */
  method MakeKey(domain: Name, qtype: u16) returns (key: Key)
    ensures key == CacheKey(domain, qtype)
  {
    var s := Normalize(domain);
    key := Key(s, qtype);
  }

  /** Capitals (65 to 90) become small letters, 32 above them; everything else stays. */
  method Normalize(domain: Name) returns (s: Name)
    ensures s == Normalized(domain)
    ensures |s| == |domain| && forall i :: 0 <= i < |s| ==>
      (65 <= domain[i] <= 90 ==> s[i] == domain[i] + 32) && (!(65 <= domain[i] <= 90) ==> s[i] == domain[i])
  {
    s := domain;
    for i := 0 to |s|
      invariant |s| == |domain|
      invariant forall j :: 0 <= j < i ==> s[j] == ToLower(domain[j])
      invariant forall j :: i <= j < |s| ==> s[j] == domain[j]
    {
      s := s[i := ToLower(s[i])];
    }
  }

  /** Equality of names up to letter case, as the resolver compares glue owners. */
  predicate EqualsIgnoreCase(a: Name, b: Name) {
    |a| == |b| && forall i :: 0 <= i < |a| ==> ToLower(a[i]) == ToLower(b[i])
  }

  /** The same letter in either case, or the same byte. */
  ghost predicate SameLetter(c: byte, d: byte) {
    c == d || (65 <= c <= 90 && d == c + 32) || (65 <= d <= 90 && c == d + 32)
  }

  /** The same name, spelled in any letter case. */
  ghost predicate SameSpelling(a: Name, b: Name) {
    |a| == |b| && forall i :: 0 <= i < |a| ==> SameLetter(a[i], b[i])
  }

  lemma EqualsIgnoreCaseIff(a: Name, b: Name)
    ensures EqualsIgnoreCase(a, b) <==> SameSpelling(a, b)
  {
    forall c: byte, d: byte
      ensures ToLower(c) == ToLower(d) <==> SameLetter(c, d)
    {
    }
  }

  /** Two keys are equal exactly if the types are and the names agree up to letter case. */
  lemma SameKeyUpToCase(a: Name, b: Name, qtype: u16, rtype: u16)
    ensures CacheKey(a, qtype) == CacheKey(b, rtype) <==> qtype == rtype && SameSpelling(a, b)
  {
    EqualsIgnoreCaseIff(a, b);
    assert Normalized(a) == Normalized(b) <==> EqualsIgnoreCase(a, b);
  }

  // ----- TTLs -----

  function OrDefault(ttl: u32): u32 {
    if ttl > 0 then ttl else DEFAULT_TTL
  }

  /** The least of `base` and the nonzero TTLs of the records. */
  function MinTtl(base: u32, records: seq<Record>): u32 {
    if records == [] then base
    else
      var last := records[|records| - 1].ttl;
      var m := MinTtl(base, records[..|records| - 1]);
      if 0 < last < m then last else m
  }

  lemma {:induction false} MinTtlIsLeast(base: u32, records: seq<Record>)
    ensures MinTtl(base, records) <= base
    ensures forall i :: 0 <= i < |records| && records[i].ttl > 0 ==> MinTtl(base, records) <= records[i].ttl
    ensures MinTtl(base, records) == base || exists i :: 0 <= i < |records| && 0 < records[i].ttl == MinTtl(base, records)
    decreases |records|
  {
    if records != [] {
      var front := records[..|records| - 1];
      MinTtlIsLeast(base, front);
      forall i | 0 <= i < |records| && records[i].ttl > 0
        ensures MinTtl(base, records) <= records[i].ttl
      {
        if i < |front| { assert front[i] == records[i]; }
      }
      if MinTtl(base, records) != base && MinTtl(base, records) == MinTtl(base, front) {
        var i :| 0 <= i < |front| && 0 < front[i].ttl == MinTtl(base, front);
        assert records[i] == front[i];
      }
    }
  }

  function RecordsEntry(records: seq<Record>, ttl: u32, made: nat): Entry {
    Entry(records, POSITIVE, made + MinTtl(OrDefault(ttl), records) * SECOND)
  }

  function RecordEntry(record: Record, made: nat): Entry {
    Entry([record], POSITIVE, made + OrDefault(record.ttl) * SECOND)
  }

  function NegativeEntry(result: CacheResult, ttl: u32, made: nat): Entry {
    Entry([], result, made + OrDefault(ttl) * SECOND)
  }

  // ----- Operations -----

  datatype Op =
    | PutEntry(entryKey: Key, entry: Entry)
    | PutRecords(recordsKey: Key, records: seq<Record>, ttl: u32, made: nat)
    | PutRecord(recordKey: Key, record: Record, made: nat)
    | PutNegative(negativeKey: Key, result: CacheResult, negativeTtl: u32, made: nat)
    | Get(getKey: Key)
    | Contains(containsKey: Key)
    | Remove(removeKey: Key)
    | Clear

  datatype Store = Store(entries: map<Key, Entry>, hits: nat, misses: nat)

  const EMPTY_STORE: Store := Store(map[], 0, 0)

  function PutAt(m: map<Key, Entry>, key: Key, entry: Entry, now: nat): map<Key, Entry> {
    if entry.Expired(now) || (entry.result == POSITIVE && entry.records == []) then m else m[key := entry]
  }

  function FindAt(m: map<Key, Entry>, key: Key, now: nat): Option<Entry> {
    if key !in m || m[key].Expired(now) then None else Some(m[key])
  }

  /** A lookup at time `now`: an expired entry is erased when it is found, and not before. */
  function GetAt(s: Store, key: Key, now: nat): Store {
    if key !in s.entries then s.(misses := s.misses + 1)
    else if s.entries[key].Expired(now) then s.(entries := s.entries - {key}, misses := s.misses + 1)
    else s.(hits := s.hits + 1)
  }

  /** The key and entry an operation offers to the cache. */
  function Offer(op: Op): Option<(Key, Entry)> {
    match op
    case PutEntry(key, entry) => Some((key, entry))
    case PutRecords(key, records, ttl, made) =>
      if records == [] then None else Some((key, RecordsEntry(records, ttl, made)))
    case PutRecord(key, record, made) => Some((key, RecordEntry(record, made)))
    case PutNegative(key, result, ttl, made) => Some((key, NegativeEntry(result, ttl, made)))
    case _ => None
  }

  function Step(s: Store, op: Op, now: nat): Store {
    match op
    case Get(key) => GetAt(s, key, now)
    case Contains(key) => GetAt(s, key, now)
    case Remove(key) => s.(entries := s.entries - {key})
    case Clear => s.(entries := map[])
    case _ => var offer := Offer(op);
      if offer.None? then s else s.(entries := PutAt(s.entries, offer.value.0, offer.value.1, now))
  }

  /** What an operation answers: only `get` and `contains` do. */
  datatype Answer = Nothing | Found(entry: Option<Entry>) | Present(present: bool)

  function AnswerOf(m: map<Key, Entry>, op: Op, now: nat): Answer {
    match op
    case Get(key) => Found(FindAt(m, key, now))
    case Contains(key) => Present(FindAt(m, key, now).Some?)
    case _ => Nothing
  }

  // ----- Runs -----

  datatype Event = Event(op: Op, at: nat)

  /** A run under a monotone clock; an entry is made no later than it is put in place. */
  ghost predicate Timed(run: seq<Event>) {
    && (forall i, j :: 0 <= i < j < |run| ==> run[i].at <= run[j].at)
    && (forall i :: 0 <= i < |run| ==>
         (run[i].op.PutRecords? || run[i].op.PutRecord? || run[i].op.PutNegative? ==> run[i].op.made <= run[i].at))
  }

  ghost function Lazy(run: seq<Event>, n: nat): Store
    requires n <= |run|
  {
    if n == 0 then EMPTY_STORE else Step(Lazy(run, n - 1), run[n - 1].op, run[n - 1].at)
  }

  /** The cache as it ought to be: expired entries are gone the moment they expire, so looking a
      key up needs no expiry test. */
  function Purge(m: map<Key, Entry>, now: nat): map<Key, Entry> {
    map k | k in m && !m[k].Expired(now) :: m[k]
  }

  function EagerStep(m: map<Key, Entry>, op: Op, now: nat): map<Key, Entry> {
    match op
    case Get(_) => m
    case Contains(_) => m
    case Remove(key) => m - {key}
    case Clear => map[]
    case _ => var offer := Offer(op);
      if offer.None? || (offer.value.1.result == POSITIVE && offer.value.1.records == []) then m
      else if offer.value.1.Expired(now) then m
      else m[offer.value.0 := offer.value.1]
  }

  function EagerAnswer(m: map<Key, Entry>, op: Op): Answer {
    match op
    case Get(key) => Found(if key in m then Some(m[key]) else None)
    case Contains(key) => Present(key in m)
    case _ => Nothing
  }

  /** The eager cache just before event `n` has its effect: purged at that moment. */
  ghost function Eager(run: seq<Event>, n: nat): map<Key, Entry>
    requires n < |run|
  {
    Purge(if n == 0 then map[] else EagerStep(Eager(run, n - 1), run[n - 1].op, run[n - 1].at), run[n].at)
  }

  lemma PurgeStep(s: Store, m: map<Key, Entry>, op: Op, t: nat, u: nat)
    requires t <= u && m == Purge(s.entries, t)
    ensures Purge(EagerStep(m, op, t), u) == Purge(Step(s, op, t).entries, u)
  {
  }

  lemma {:induction false} LazyPurgedIsEager(run: seq<Event>, n: nat)
    requires Timed(run) && n < |run|
    ensures Purge(Lazy(run, n).entries, run[n].at) == Eager(run, n)
    decreases n
  {
    if n > 0 {
      LazyPurgedIsEager(run, n - 1);
      PurgeStep(Lazy(run, n - 1), Eager(run, n - 1), run[n - 1].op, run[n - 1].at, run[n].at);
    }
  }

  /** Lazy expiry refines eager expiry: in every run every answer is the eager cache's. */
  lemma LazyRefinesEager(run: seq<Event>, n: nat)
    requires Timed(run) && n < |run|
    ensures AnswerOf(Lazy(run, n).entries, run[n].op, run[n].at) == EagerAnswer(Eager(run, n), run[n].op)
  {
    LazyPurgedIsEager(run, n);
  }

  // ----- What is in the cache, told from the run alone -----

  /** TTL `m` is the least of `base` and the nonzero TTLs of the records. */
  ghost predicate LeastTtl(m: u32, base: u32, records: seq<Record>) {
    && m <= base && (forall i :: 0 <= i < |records| && records[i].ttl > 0 ==> m <= records[i].ttl)
    && (m == base || exists i :: 0 <= i < |records| && 0 < records[i].ttl == m)
  }

  /** What each put offers under key `k`: the records or the negative result it is given, for the
      TTL it is given (60 for none), or for a list of records the least TTL among them. */
  ghost predicate Offers(op: Op, k: Key, e: Entry) {
    match op
    case PutEntry(key, entry) => k == key && e == entry
    case PutRecords(key, records, ttl, made) =>
      && k == key && records != [] && e.records == records && e.result == POSITIVE
      && exists m: u32 :: LeastTtl(m, if ttl > 0 then ttl else 60, records) && e.expiration == made + m * SECOND
    case PutRecord(key, record, made) =>
      && k == key && e.records == [record] && e.result == POSITIVE
      && e.expiration == made + (if record.ttl > 0 then record.ttl else 60) * SECOND
    case PutNegative(key, result, ttl, made) =>
      && k == key && e.records == [] && e.result == result
      && e.expiration == made + (if ttl > 0 then ttl else 60) * SECOND
    case _ => false
  }

  /** The event puts `e` under `k`: it offers it, not expired, and not positive without records. */
  ghost predicate Puts(ev: Event, k: Key, e: Entry) {
    Offers(ev.op, k, e) && ev.at < e.expiration && !(e.result == POSITIVE && e.records == [])
  }

  ghost predicate Erases(ev: Event, k: Key) {
    ev.op == Remove(k) || ev.op == Clear
  }

  /** Of the first `n` events, `j` puts `e` under `k`, and none after it puts anything there or erases it. */
  ghost predicate LastPut(run: seq<Event>, j: nat, n: nat, k: Key, e: Entry)
    requires n <= |run|
  {
    && j < n && Puts(run[j], k, e)
    && forall i :: j < i < n ==> !Erases(run[i], k) && forall x :: !Puts(run[i], k, x)
  }

  lemma LeastTtlIff(m: u32, base: u32, records: seq<Record>)
    ensures LeastTtl(m, base, records) <==> m == MinTtl(base, records)
  {
    MinTtlIsLeast(base, records);
  }

  lemma OffersIff(op: Op, k: Key, e: Entry)
    ensures Offers(op, k, e) <==> Offer(op) == Some((k, e))
  {
    if op.PutRecords? {
      var base := OrDefault(op.ttl);
      LeastTtlIff(MinTtl(base, op.records), base, op.records);
      forall m: u32
        ensures LeastTtl(m, base, op.records) <==> m == MinTtl(base, op.records)
      {
        LeastTtlIff(m, base, op.records);
      }
    }
  }

  /** What one event makes of the entry of a key. */
  lemma StepAt(s: Store, ev: Event, k: Key)
    ensures var t := Step(s, ev.op, ev.at).entries;
      && (forall e :: Puts(ev, k, e) ==> k in t && t[k] == e)
      && (Erases(ev, k) ==> k !in t)
      && ((forall e :: !Puts(ev, k, e)) && !Erases(ev, k) ==>
           && (k in t ==> k in s.entries && t[k] == s.entries[k])
           && (k in s.entries && ev.at < s.entries[k].expiration ==> k in t))
  {
    hide Offers;
    forall e
      ensures Offers(ev.op, k, e) <==> Offer(ev.op) == Some((k, e))
    {
      OffersIff(ev.op, k, e);
    }
    if Offer(ev.op).Some? && Offer(ev.op).value.0 == k {
      var e := Offer(ev.op).value.1;
      assert Puts(ev, k, e) || PutAt(s.entries, k, e, ev.at) == s.entries;
    }
  }

  lemma {:induction false} EntryIsLastPut(run: seq<Event>, n: nat, k: Key)
    requires n <= |run| && k in Lazy(run, n).entries
    ensures exists j: nat :: LastPut(run, j, n, k, Lazy(run, n).entries[k])
    decreases n
  {
    hide Puts, Erases, Step;
    var ev, before, e := run[n - 1], Lazy(run, n - 1), Lazy(run, n).entries[k];
    StepAt(before, ev, k);
    if x :| Puts(ev, k, x) {
      assert LastPut(run, n - 1, n, k, e);
    } else {
      EntryIsLastPut(run, n - 1, k);
      var j: nat :| LastPut(run, j, n - 1, k, e);
      assert LastPut(run, j, n, k, e);
    }
  }

  lemma {:induction false} LastPutIsEntry(run: seq<Event>, j: nat, n: nat, k: Key, e: Entry)
    requires Timed(run) && n <= |run| && LastPut(run, j, n, k, e)
    requires forall i :: 0 <= i < n ==> run[i].at < e.expiration
    ensures k in Lazy(run, n).entries && Lazy(run, n).entries[k] == e
    decreases n
  {
    hide Puts, Erases, Step;
    StepAt(Lazy(run, n - 1), run[n - 1], k);
    if j < n - 1 {
      LastPutIsEntry(run, j, n - 1, k, e);
    }
  }

  /** In every run a key is found exactly if the last entry put under it was not erased since and
      has not expired; and that entry is what is found. */
  lemma FoundIffLastPut(run: seq<Event>, n: nat, k: Key, e: Entry)
    requires Timed(run) && n < |run|
    ensures FindAt(Lazy(run, n).entries, k, run[n].at) == Some(e) <==>
      run[n].at < e.expiration && exists j: nat :: LastPut(run, j, n, k, e)
  {
    hide LastPut, Step;
    if k in Lazy(run, n).entries {
      EntryIsLastPut(run, n, k);
    }
    if run[n].at < e.expiration && exists j: nat :: LastPut(run, j, n, k, e) {
      var j: nat :| LastPut(run, j, n, k, e);
      LastPutIsEntry(run, j, n, k, e);
    }
  }

  /** How many of the first `n` events were lookups that found something. */
  ghost function AnsweredLookups(run: seq<Event>, n: nat): nat
    requires n <= |run|
  {
    if n == 0 then 0
    else
      var answer := AnswerOf(Lazy(run, n - 1).entries, run[n - 1].op, run[n - 1].at);
      AnsweredLookups(run, n - 1) + if (answer.Found? && answer.entry.Some?) || answer == Present(true) then 1 else 0
  }

  /** Hits are the lookups that found something, hence misses the others. */
  lemma {:induction false} HitsAreAnswered(run: seq<Event>, n: nat)
    requires n <= |run|
    ensures Lazy(run, n).hits == AnsweredLookups(run, n)
    decreases n
  {
    if n > 0 {
      HitsAreAnswered(run, n - 1);
    }
  }

  function Lookups(run: seq<Event>, n: nat): nat
    requires n <= |run|
  {
    if n == 0 then 0 else Lookups(run, n - 1) + if run[n - 1].op.Get? || run[n - 1].op.Contains? then 1 else 0
  }

  ghost predicate StoreInvariant(s: Store) {
    forall k :: k in s.entries && s.entries[k].result == POSITIVE ==> s.entries[k].records != []
  }

  lemma StepKeepsInvariant(s: Store, op: Op, now: nat)
    requires StoreInvariant(s)
    ensures StoreInvariant(Step(s, op, now))
  {
  }

  /** No positive entry is ever empty, and hits and misses count the lookups. */
  lemma {:induction false} RunInvariants(run: seq<Event>, n: nat)
    requires n <= |run|
    ensures StoreInvariant(Lazy(run, n))
    ensures Lazy(run, n).hits + Lazy(run, n).misses == Lookups(run, n)
    decreases n
  {
    if n > 0 {
      RunInvariants(run, n - 1);
      StepKeepsInvariant(Lazy(run, n - 1), run[n - 1].op, run[n - 1].at);
    }
  }

  /** Every entry of the cache was put there, under that key, by an earlier operation. */
  lemma {:induction false} EntriesHaveOrigins(run: seq<Event>, n: nat, k: Key) returns (j: nat)
    requires n <= |run| && k in Lazy(run, n).entries
    ensures j < n && Offer(run[j].op) == Some((k, Lazy(run, n).entries[k]))
    ensures !Lazy(run, n).entries[k].Expired(run[j].at)
    decreases n
  {
    var before, op := Lazy(run, n - 1).entries, run[n - 1].op;
    if Offer(op).Some? && Offer(op).value.0 == k && PutAt(before, k, Offer(op).value.1, run[n - 1].at) != before {
      j := n - 1;
    } else {
      j := EntriesHaveOrigins(run, n - 1, k);
    }
  }

  /** The bound the original promises for an entry an operation made at time `made`. */
  ghost predicate WithinTtl(op: Op, now: nat) {
    match op
    case PutEntry(_, entry) => now < entry.expiration
    case PutRecords(_, records, ttl, made) =>
      && now < made + OrDefault(ttl) * SECOND
      && (forall i :: 0 <= i < |records| && records[i].ttl > 0 ==> now < made + records[i].ttl * SECOND)
    case PutRecord(_, record, made) => now < made + OrDefault(record.ttl) * SECOND
    case PutNegative(_, _, ttl, made) => now < made + OrDefault(ttl) * SECOND
    case _ => false
  }

  /** In every run, an entry that is served was stored under that key by an earlier operation,
      and is served no later than the TTL argument nor any nonzero TTL of its records allows. */
  lemma ServedWithinTtl(run: seq<Event>, n: nat) returns (j: nat)
    requires Timed(run) && n < |run| && run[n].op.Get?
    requires FindAt(Lazy(run, n).entries, run[n].op.getKey, run[n].at).Some?
    ensures j < n && WithinTtl(run[j].op, run[n].at)
    ensures Offer(run[j].op) == Some((run[n].op.getKey, FindAt(Lazy(run, n).entries, run[n].op.getKey, run[n].at).value))
  {
    j := EntriesHaveOrigins(run, n, run[n].op.getKey);
    var op := run[j].op;
    if op.PutRecords? {
      MinTtlIsLeast(OrDefault(op.ttl), op.records);
      TtlScales(MinTtl(OrDefault(op.ttl), op.records), OrDefault(op.ttl));
      forall i | 0 <= i < |op.records| && op.records[i].ttl > 0
        ensures run[n].at < op.made + op.records[i].ttl * SECOND
      {
        TtlScales(MinTtl(OrDefault(op.ttl), op.records), op.records[i].ttl);
      }
    }
  }

  lemma TtlScales(a: nat, b: nat)
    requires a <= b
    ensures a * SECOND <= b * SECOND
  {
  }

  /** Every entry the TTL overloads make lives at least one second. */
  lemma MadeEntriesLiveASecond(op: Op)
    requires op.PutRecords? || op.PutRecord? || op.PutNegative?
    ensures Offer(op).Some? ==> op.made + SECOND <= Offer(op).value.1.expiration
  {
    if op.PutRecords? {
      MinTtlIsLeast(OrDefault(op.ttl), op.records);
      TtlScales(1, MinTtl(OrDefault(op.ttl), op.records));
    }
  }

  // ----- The clock and the cache -----

  /** A steady clock: it moves on between any two readings, by any amount, and never back. */
  class SteadyClock {
    var now: nat

    constructor () {
      now := 0;
    }

    method Read() returns (t: nat)
      modifies this
      ensures t == now && old(now) <= now
    {
      var passed: int := *;
      if passed > 0 {
        now := now + passed;
      }
      t := now;
    }
  }

  class DnsCache {
    var entries: map<Key, Entry>
    var hitCount: nat
    var missCount: nat
    const clock: SteadyClock

    ghost function Now(): Store
      reads this
    {
      Store(entries, hitCount, missCount)
    }

    ghost predicate Valid()
      reads this
    {
      StoreInvariant(Now())
    }

    constructor (clock: SteadyClock)
      ensures this.clock == clock && Now() == EMPTY_STORE && Valid()
    {
      this.clock := clock;
      entries, hitCount, missCount := map[], 0, 0;
    }

    method PutEntry(key: Key, entry: Entry)
      requires Valid()
      modifies this, clock
      ensures Valid() && old(clock.now) <= clock.now
      ensures Now() == Step(old(Now()), Op.PutEntry(key, entry), clock.now)
    {
      var now := clock.Read();
      if entry.Expired(now) { return; }
      if entry.result == POSITIVE && entry.records == [] { return; }
      entries := entries[key := entry];
    }

    method PutRecords(key: Key, records: seq<Record>, ttl: u32) returns (ghost made: nat)
      requires Valid()
      modifies this, clock
      ensures Valid() && old(clock.now) <= made <= clock.now
      ensures Now() == Step(old(Now()), Op.PutRecords(key, records, ttl, made), clock.now)
    {
      made := clock.now;
      if records == [] { return; }
      var minTtl: u32 := if ttl > 0 then ttl else 60;
      for i := 0 to |records|
        invariant minTtl == MinTtl(OrDefault(ttl), records[..i])
      {
        assert records[..i + 1][..i] == records[..i];
        if records[i].ttl > 0 && records[i].ttl < minTtl {
          minTtl := records[i].ttl;
        }
      }
      assert records[..|records|] == records;
      var now := clock.Read();
      made := now;
      PutEntry(key, Entry(records, POSITIVE, now + minTtl * SECOND));
    }

    method PutRecord(key: Key, record: Record) returns (ghost made: nat)
      requires Valid()
      modifies this, clock
      ensures Valid() && old(clock.now) <= made <= clock.now
      ensures Now() == Step(old(Now()), Op.PutRecord(key, record, made), clock.now)
    {
      var now := clock.Read();
      made := now;
      PutEntry(key, Entry([record], POSITIVE, now + OrDefault(record.ttl) * SECOND));
    }

    method PutNegative(key: Key, result: CacheResult, ttl: u32) returns (ghost made: nat)
      requires Valid()
      modifies this, clock
      ensures Valid() && old(clock.now) <= made <= clock.now
      ensures Now() == Step(old(Now()), Op.PutNegative(key, result, ttl, made), clock.now)
    {
      var now := clock.Read();
      made := now;
      PutEntry(key, Entry([], result, now + OrDefault(ttl) * SECOND));
    }

    method Get(key: Key) returns (r: Option<Entry>)
      requires Valid()
      modifies this, clock
      ensures Valid() && old(clock.now) <= clock.now
      ensures Now() == Step(old(Now()), Op.Get(key), clock.now)
      ensures r == FindAt(old(entries), key, clock.now)
    {
      if key !in entries {
        missCount := missCount + 1;
        return None;
      }
      var now := clock.Read();
      if entries[key].Expired(now) {
        entries := entries - {key};
        missCount := missCount + 1;
        return None;
      }
      hitCount := hitCount + 1;
      r := Some(entries[key]);
    }

    method Contains(key: Key) returns (present: bool)
      requires Valid()
      modifies this, clock
      ensures Valid() && old(clock.now) <= clock.now
      ensures Now() == Step(old(Now()), Op.Contains(key), clock.now)
      ensures Present(present) == AnswerOf(old(entries), Op.Contains(key), clock.now)
    {
      var r := Get(key);
      present := r.Some?;
    }

    method Remove(key: Key)
      requires Valid()
      modifies this
      ensures Valid() && Now() == Step(old(Now()), Op.Remove(key), clock.now)
    {
      entries := entries - {key};
    }

    method Clear()
      requires Valid()
      modifies this
      ensures Valid() && Now() == Step(old(Now()), Op.Clear, clock.now)
    {
      entries := map[];
    }
  }
}
