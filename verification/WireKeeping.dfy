/**
  Which relayed answers are kept, for how long, and what a hit can be, told from the bytes of the answers
  and the events of a run.

  Main results: an accepted answer enters the cache if and only if it is not truncated and it is a positive
  answer whose least TTL is positive, or a negative one; its deadline is exactly that least TTL within its
  bounds, or thirty seconds; no hit of any run is truncated or carries another response code than 0 or 3;
  and the cache answers a query if and only if an answer was stored under its key, has not passed its
  deadline, and was neither cleared, replaced nor given up since.
 */
module WireKeeping {
  import opened Collections
  import opened Basics
  import opened Bytes
  import opened DnsMessage
  import opened DnsQuery
  import opened Expiring
  import opened WireCache

  // ---- one answer ----

  predicate IsTruncated(d: seq<Byte>)
    requires |d| >= HEADER
  {
    d[2] as int / 2 % 2 == 1
  }

  function ResponseCode(d: seq<Byte>): nat
    requires |d| >= HEADER
  {
    d[3] as int % 16
  }

  /** Record `j` of the walk is an answer; those come first, as many as the header says. */
  predicate IsAnswer(d: seq<Byte>, j: nat)
    requires |d| >= HEADER
  {
    j < Read16(d, 6)
  }

  /** The authority records come behind them. */
  predicate IsAuthority(d: seq<Byte>, j: nat)
    requires |d| >= HEADER
  {
    Read16(d, 6) <= j < Read16(d, 6) + Read16(d, 8)
  }

  /** Record `j` carries a TTL that counts for the section. */
  predicate Counts(d: seq<Byte>, refs: seq<RecordRef>, authority: bool, j: nat)
    requires |d| >= HEADER
  {
    j < |refs| && refs[j].kind != 41 && if authority then IsAuthority(d, j) else IsAnswer(d, j)
  }

  /** `ttl` is the least TTL of the section. */
  ghost predicate LeastIs(d: seq<Byte>, refs: seq<RecordRef>, authority: bool, ttl: nat)
    requires |d| >= HEADER
  {
    && (exists j: nat :: Counts(d, refs, authority, j) && TtlIs(d, refs, j, ttl))
    && (forall j: nat :: Counts(d, refs, authority, j) ==> TtlAtLeast(d, refs, j, ttl))
  }

  predicate TtlIs(d: seq<Byte>, refs: seq<RecordRef>, j: nat, ttl: nat) {
    j < |refs| && refs[j].ttlOffset + 4 <= |d| && Read32(d, refs[j].ttlOffset) == ttl
  }

  predicate TtlAtLeast(d: seq<Byte>, refs: seq<RecordRef>, j: nat, ttl: nat) {
    j < |refs| && refs[j].ttlOffset + 4 <= |d| && ttl <= Read32(d, refs[j].ttlOffset)
  }

  ghost predicate NoTtl(d: seq<Byte>, refs: seq<RecordRef>, authority: bool)
    requires |d| >= HEADER
  {
    forall j: nat :: !Counts(d, refs, authority, j)
  }

  /** A positive answer, for its least TTL within ten seconds and an hour. */
  ghost predicate KeptPositive(d: seq<Byte>, seconds: nat)
    requires Walk(d).Good?
  {
    && ResponseCode(d) == 0 && Read16(d, 6) > 0
    && exists ttl: nat ::
         LeastIs(d, Walk(d).records, false, ttl) && ttl > 0 && seconds == Max(10, Min(ttl, 3600))
  }

  /** A negative answer, for its least authority TTL within ten seconds and a minute, or half a minute without one. */
  ghost predicate KeptNegative(d: seq<Byte>, seconds: nat)
    requires Walk(d).Good?
  {
    && (ResponseCode(d) == 3 || (ResponseCode(d) == 0 && Read16(d, 6) == 0))
    && if NoTtl(d, Walk(d).records, true) then seconds == 30
       else exists ttl: nat :: LeastIs(d, Walk(d).records, true, ttl) && seconds == Max(10, Min(ttl, 60))
  }

  /** The answer may be kept for so many seconds. */
  ghost predicate MayBeKept(d: seq<Byte>, seconds: nat)
    requires Walk(d).Good?
  {
    !IsTruncated(d) && (KeptPositive(d, seconds) || KeptNegative(d, seconds))
  }

  lemma {:induction false} SectionsByIndex(d: seq<Byte>, counts: DnsMessage.Counts, i: nat, offset: nat)
    requires i <= counts.Total() && offset <= |d| && Records(d, counts, i, offset).Some?
    ensures var refs := Records(d, counts, i, offset).value;
      |refs| == counts.Total() - i && forall j :: 0 <= j < |refs| ==> refs[j].section == counts.SectionOf(i + j)
    decreases |d| - offset
  {
    if i < counts.Total() {
      var end := RecordEnd(d, SkipName(d, offset));
      SectionsByIndex(d, counts, i + 1, end);
      var refs, rest := Records(d, counts, i, offset).value, Records(d, counts, i + 1, end).value;
      forall j | 0 < j < |refs| ensures refs[j].section == counts.SectionOf(i + j) {
        assert refs[j] == rest[j - 1];
      }
    }
  }

  /** What the walk calls the section of a record is its place among the counts. */
  lemma {:induction false} SectionIsPlace(d: seq<Byte>, j: nat, authority: bool)
    requires Walk(d).Good? && j < |Walk(d).records|
    ensures |d| >= HEADER && Walk(d).records[j].ttlOffset + 4 <= |d|
    ensures Walk(d).records[j].section == (if authority then 1 else 0) <==>
      if authority then IsAuthority(d, j) else IsAnswer(d, j)
  {
    RecordsAreSpaced(d, CountsOf(d), 0, Walk(d).questionEnd);
    SectionsByIndex(d, CountsOf(d), 0, Walk(d).questionEnd);
  }

  lemma {:induction false} LeastTtlExactly(d: seq<Byte>, authority: bool)
    requires Walk(d).Good?
    ensures |d| >= HEADER && forall i :: 0 <= i < |Walk(d).records| ==> Walk(d).records[i].ttlOffset + 4 <= |d|
    ensures var least := LeastTtl(d, Walk(d).records, |Walk(d).records|, if authority then 1 else 0);
      && (least.None? <==> NoTtl(d, Walk(d).records, authority))
      && forall ttl: nat :: least == Some(ttl) <==> LeastIs(d, Walk(d).records, authority, ttl)
  {
    RecordsAreSpaced(d, CountsOf(d), 0, Walk(d).questionEnd);
    var refs, section := Walk(d).records, if authority then 1 else 0;
    var least := LeastTtl(d, refs, |refs|, section);
    forall j: nat | j < |refs|
      ensures Counts(d, refs, authority, j) <==> refs[j].kind != TYPE_OPT && refs[j].section == section
    {
      SectionIsPlace(d, j, authority);
    }
    forall j: nat | Counts(d, refs, authority, j)
      ensures least.Some? && least.value <= Read32(d, refs[j].ttlOffset)
    {
      LeastTtlIsLeast(d, refs, |refs|, section, j);
      assert TtlIs(d, refs, j, Read32(d, refs[j].ttlOffset));
    }
    if least.Some? {
      var j := LeastTtlAttained(d, refs, |refs|, section);
      assert Counts(d, refs, authority, j) && TtlIs(d, refs, j, least.value);
      LeastAttainedIsLeast(d, refs, authority, least.value);
    }
  }

  lemma {:induction false} LeastAttainedIsLeast(d: seq<Byte>, refs: seq<RecordRef>, authority: bool, least: nat)
    requires |d| >= HEADER && forall i :: 0 <= i < |refs| ==> refs[i].ttlOffset + 4 <= |d|
    requires exists j: nat :: Counts(d, refs, authority, j) && TtlIs(d, refs, j, least)
    requires forall j: nat :: Counts(d, refs, authority, j) ==> least <= Read32(d, refs[j].ttlOffset)
    ensures forall ttl: nat :: LeastIs(d, refs, authority, ttl) <==> ttl == least
  {
    forall ttl: nat | LeastIs(d, refs, authority, ttl) ensures ttl == least {
      var j: nat :| Counts(d, refs, authority, j) && TtlIs(d, refs, j, ttl);
      var i: nat :| Counts(d, refs, authority, i) && TtlIs(d, refs, i, least);
      assert TtlAtLeast(d, refs, i, ttl);
    }
  }

  /** The answer may be kept for some time: not truncated, and positive with a positive least TTL, or negative. */
  ghost predicate Cacheable(d: seq<Byte>)
    requires Walk(d).Good?
  {
    && !IsTruncated(d)
    && if ResponseCode(d) == 0 && Read16(d, 6) > 0
       then exists ttl: nat :: ttl > 0 && LeastIs(d, Walk(d).records, false, ttl)
       else ResponseCode(d) == 0 || ResponseCode(d) == 3
  }

  /** The program's life time is exactly what the bytes of the answer allow. */
  lemma {:induction false} KeptExactly(d: seq<Byte>, seconds: nat)
    requires Walk(d).Good?
    ensures MayBeKept(d, seconds) <==> seconds > 0 && Lifetime(Info(d)) == seconds
  {
    LeastTtlExactly(d, false);
    LeastTtlExactly(d, true);
  }

  /** And it is zero exactly when they allow none. */
  lemma {:induction false} CacheableExactly(d: seq<Byte>)
    requires Walk(d).Good?
    ensures Cacheable(d) <==> Lifetime(Info(d)) > 0
  {
    LeastTtlExactly(d, false);
    LeastTtlExactly(d, true);
  }

  // ---- what the relay keeps ----

  lemma {:induction false} RelayStores(
    message: seq<Byte>, q: Query, cache: Cache, cache': Cache, body: seq<Byte>, at: nat, r: seq<Byte>, seconds: nat)
    requires Relayed(message, q, cache, cache', Some(body), at, r) && Accepts(message, body) && q.id < 0x1_0000
    requires seconds == Lifetime(Info(body))
    ensures seconds > 0 ==>
      AfterStore(cache, cache', WireKey(q), Timed(Kept(SetId(body, q.id), at), at + 1000 * seconds))
    ensures seconds == 0 ==> cache' == cache
  {
    assert NewEntry(body, q.id, at) == Timed(Kept(SetId(body, q.id), at), at + 1000 * seconds);
  }

  /** The relay stores an accepted answer that may be kept, until exactly then. */
  lemma {:induction false} RelayKeepsExactly(
    message: seq<Byte>, q: Query, cache: Cache, cache': Cache, body: seq<Byte>, at: nat, r: seq<Byte>, seconds: nat)
    requires Relayed(message, q, cache, cache', Some(body), at, r) && Accepts(message, body) && q.id < 0x1_0000
    requires MayBeKept(body, seconds)
    ensures AfterStore(cache, cache', WireKey(q), Timed(Kept(SetId(body, q.id), at), at + 1000 * seconds))
  {
    KeptExactly(body, seconds);
    RelayStores(message, q, cache, cache', body, at, r, seconds);
  }

  /** It stores no other. */
  lemma {:induction false} RelayKeepsNoOther(
    message: seq<Byte>, q: Query, cache: Cache, cache': Cache, body: seq<Byte>, at: nat, r: seq<Byte>)
    requires Relayed(message, q, cache, cache', Some(body), at, r) && Accepts(message, body) && q.id < 0x1_0000
    requires !Cacheable(body)
    ensures cache' == cache
  {
    CacheableExactly(body);
    RelayStores(message, q, cache, cache', body, at, r, 0);
  }

  // ---- what a hit is ----

  /** The message is not truncated and says no failure. */
  predicate NoFailure(d: seq<Byte>) {
    |d| >= HEADER && !IsTruncated(d) && (ResponseCode(d) == 0 || ResponseCode(d) == 3)
  }

  lemma {:induction false} CacheableIsNoFailure(d: seq<Byte>)
    requires Walk(d).Good? && Lifetime(Info(d)) > 0
    ensures NoFailure(d)
  {
    CacheableExactly(d);
  }

  lemma {:induction false} ServedIsNoFailure(body: seq<Byte>, id: nat, age: nat)
    requires Walk(body).Good? && id < 0x1_0000 && Lifetime(Info(body)) > 0
    ensures NoFailure(Served(body, id, age))
  {
    CacheableIsNoFailure(body);
    ServedFront(body, id, age);
    SameFlags(body, Served(body, id, age), Walk(body).questionEnd);
  }

  lemma {:induction false} AsGoodIsNoFailure(
    asked: seq<Byte>, body: seq<Byte>, at: nat, message: seq<Byte>, now: nat, r: seq<Byte>)
    requires AsGoodAs(asked, body, at, message, now, r)
    ensures NoFailure(r) && Walk(body).Good?
  {
    ServedIsNoFailure(body, Parse(message).query.id, (now - at) / 1000);
  }

  lemma {:induction false} AsGoodIsInTime(
    asked: seq<Byte>, body: seq<Byte>, at: nat, message: seq<Byte>, now: nat, r: seq<Byte>) returns (seconds: nat)
    requires AsGoodAs(asked, body, at, message, now, r)
    ensures Walk(body).Good? && MayBeKept(body, seconds) && now < at + 1000 * seconds
  {
    seconds := Lifetime(Info(body));
    KeptExactly(body, seconds);
  }

  /** Every hit of every run says no failure. */
  lemma {:induction false} HitIsNoFailure(
    events: seq<Event>, caches: seq<Cache>, n: nat, message: seq<Byte>, now: nat, r: seq<Byte>)
    requires Run(events, caches) && n <= |events| && forall i :: 0 <= i < |events| ==> Genuine(events[i])
    requires Parse(message).ok && Parse(message).query.id < 0x1_0000
    requires WireCache.Live(caches[n], WireKey(Parse(message).query), now)
    requires r == Hit(caches[n][WireKey(Parse(message).query)], Parse(message).query.id, now)
    ensures NoFailure(r)
  {
    var j := HitRefinesAskingAgain(events, caches, n, message, now);
    AsGoodIsNoFailure(events[j].message, events[j].body, events[j].entry.value.storedAt, message, now, r);
  }

  /** Every hit of every run is an answer that may be kept, within its time. */
  lemma {:induction false} HitIsInTime(
    events: seq<Event>, caches: seq<Cache>, n: nat, message: seq<Byte>, now: nat) returns (j: nat, seconds: nat)
    requires Run(events, caches) && n <= |events| && forall i :: 0 <= i < |events| ==> Genuine(events[i])
    requires Parse(message).ok && Parse(message).query.id < 0x1_0000
    requires WireCache.Live(caches[n], WireKey(Parse(message).query), now)
    ensures j < n && events[j].Stored? && caches[n][WireKey(Parse(message).query)] == events[j].entry
    ensures Walk(events[j].body).Good? && MayBeKept(events[j].body, seconds)
    ensures now < events[j].entry.value.storedAt + 1000 * seconds
  {
    j := HitRefinesAskingAgain(events, caches, n, message, now);
    var e := events[j];
    var r := Hit(e.entry, Parse(message).query.id, now);
    seconds := AsGoodIsInTime(e.message, e.body, e.entry.value.storedAt, message, now, r);
  }

  lemma {:induction false} SameFlags(d: seq<Byte>, e: seq<Byte>, end: nat)
    requires HEADER <= end <= |d| == |e| && Agree(d, e, 2, end)
    ensures IsTruncated(e) == IsTruncated(d) && ResponseCode(e) == ResponseCode(d)
  {
    assert e[2] == d[2] && e[3] == d[3];
  }

  // ---- when there is a hit ----

  /** The store at `j` is the last under the key before `n`, and the cache was not cleared since. */
  predicate LastStore(events: seq<Event>, j: nat, n: nat, key: string)
    requires n <= |events|
  {
    && j < n && events[j].Stored? && events[j].key == key
    && forall k :: j < k < n ==> !events[k].Cleared? && !(events[k].Stored? && events[k].key == key)
  }

  /** The store at `k` finds the cache full and gives up this key, as one with the earliest deadline. */
  ghost predicate GivenUpAt(events: seq<Event>, caches: seq<Cache>, k: nat, key: string)
    requires k < |events| && |caches| == |events| + 1
  {
    && events[k].Stored? && |caches[k]| >= MAX_ENTRIES && Oldest(caches[k], key) && key !in caches[k + 1]
  }

  ghost predicate NotGivenUp(events: seq<Event>, caches: seq<Cache>, j: nat, n: nat, key: string)
    requires n <= |events| && |caches| == |events| + 1
  {
    forall k :: j < k < n ==> !GivenUpAt(events, caches, k, key)
  }

  /** The clock has not been past `now` at a look-up before `n`. */
  predicate Timely(events: seq<Event>, n: nat, now: nat)
    requires n <= |events|
  {
    forall k :: 0 <= k < n && events[k].LookedUp? ==> events[k].now <= now
  }

  lemma {:induction false} StoredStays(
    events: seq<Event>, caches: seq<Cache>, j: nat, n: nat, key: string, now: nat)
    requires Run(events, caches) && j < n <= |events| && LastStore(events, j, n, key) && Timely(events, n, now)
    requires now < events[j].entry.expiresAt && NotGivenUp(events, caches, j, n, key)
    ensures key in caches[n] && caches[n][key] == events[j].entry
    decreases n
  {
    assert StepAt(events, caches, n - 1);
    if n - 1 > j {
      StoredStays(events, caches, j, n - 1, key, now);
      assert !GivenUpAt(events, caches, n - 1, key);
    }
  }

  lemma {:induction false} GoneStays(events: seq<Event>, caches: seq<Cache>, k: nat, n: nat, key: string)
    requires Run(events, caches) && k <= n <= |events| && key !in caches[k]
    requires forall i :: k <= i < n ==> !(events[i].Stored? && events[i].key == key)
    ensures key !in caches[n]
    decreases n - k
  {
    if k < n {
      assert StepAt(events, caches, k);
      GoneStays(events, caches, k + 1, n, key);
    }
  }

  /** The cache answers exactly while the last answer stored under the key lives and was not given up. */
  lemma {:induction false} HitExactly(events: seq<Event>, caches: seq<Cache>, n: nat, key: string, now: nat)
    requires Run(events, caches) && n <= |events| && Timely(events, n, now)
    requires forall j :: 0 <= j < n && events[j].Stored? ==> events[j].entry.value.storedAt <= now
    ensures WireCache.Live(caches[n], key, now) <==>
      exists j: nat :: LastStore(events, j, n, key) && now < events[j].entry.expiresAt
        && NotGivenUp(events, caches, j, n, key)
  {
    if WireCache.Live(caches[n], key, now) {
      var j := EntryHasSource(events, caches, n, key);
      forall k | j < k < n ensures !GivenUpAt(events, caches, k, key) {
        if key !in caches[k + 1] { GoneStays(events, caches, k + 1, n, key); }
      }
      assert LastStore(events, j, n, key);
    }
    if j: nat :| LastStore(events, j, n, key) && now < events[j].entry.expiresAt
                 && NotGivenUp(events, caches, j, n, key) {
      StoredStays(events, caches, j, n, key, now);
    }
  }
}
