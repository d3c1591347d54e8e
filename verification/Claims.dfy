/**
  The two registries through which a local listener proves that a connection or a datagram really
  came from a packet the loop reflected: the loop observes a tuple, the listener claims it.

  Over every run, a claimed connection consumes one observation of exactly its tuple, made less than
  fifteen seconds earlier and claimed by nobody else, and receives that observation's target; and
  the datagrams claimed on a tuple never outnumber those observed on it.
 */
module Claims {
  import opened Collections
  import opened Basics
  import opened Expiring
  import opened Text

  const PENDING_FLOW_TTL_MS := 15000
  const MAX_PENDING_FLOWS := 8192
  const MAX_PENDING_DATAGRAMS := 32
  const PRUNE_INTERVAL_MS := 1000

  datatype Target = Target(address: string, targetPort: nat, connectPort: nat)

  function TupleKey(address: string, port: nat): string {
    address + "|" + Decimal(port)
  }

  /** The sweep of an observation: at most once per interval, and again when the table is full. */
  method Swept<V(==)>(m: Table<string, V>, nextPruneMs: nat, now: nat, mustFit: bool)
    returns (m': Table<string, V>, nextPruneMs': nat)
    requires |m| <= MAX_PENDING_FLOWS
    ensures Submap(m', m) && |m'| <= |m|
    ensures mustFit ==> |m'| < MAX_PENDING_FLOWS
    ensures forall lost :: lost in m && lost !in m' ==>
      || m[lost].expiresAt <= now
      || (mustFit && |m| >= MAX_PENDING_FLOWS && forall kept :: kept in m' ==> m[lost].expiresAt <= m'[kept].expiresAt)
  {
    m', nextPruneMs' := m, nextPruneMs;
    if now >= nextPruneMs {
      m' := Live(m, now);
      LiveIsSmaller(m, now);
      nextPruneMs' := now + PRUNE_INTERVAL_MS;
    }
    if mustFit && |m'| >= MAX_PENDING_FLOWS {
      m' := MakeRoom(m', now, MAX_PENDING_FLOWS);
    }
  }

  // ---- connections ----

  predicate Observable(address: string, clientPort: nat, targetPort: nat, connectPort: nat) {
    address != "" && clientPort != 0 && targetPort != 0 && connectPort != 0
  }

  class FlowRegistry {
    var entries: Table<string, Target>
    var nextPruneMs: nat

    ghost predicate Valid()
      reads this
    {
      |entries| <= MAX_PENDING_FLOWS
    }

    constructor ()
      ensures Valid() && entries == map[]
    {
      entries, nextPruneMs := map[], 0;
    }

    method Observe(address: string, clientPort: nat, targetPort: nat, connectPort: nat, nowMs: nat)
      requires Valid()
      modifies this
      ensures Valid()
      ensures if Observable(address, clientPort, targetPort, connectPort)
        then
          var entry := Timed(Target(address, targetPort, connectPort), nowMs + PENDING_FLOW_TTL_MS);
          Written(old(entries), entries, TupleKey(address, clientPort), entry, nowMs, MAX_PENDING_FLOWS)
        else entries == old(entries)
    {
      if address == "" || clientPort == 0 || targetPort == 0 || connectPort == 0 {
        return;
      }
      entries, nextPruneMs := Swept(entries, nextPruneMs, nowMs, true);
      var key := TupleKey(address, clientPort);
      var entry := Timed(Target(address, targetPort, connectPort), nowMs + PENDING_FLOW_TTL_MS);
      WriteSize(entries, key, entry);
      entries := entries[key := entry];
    }

    method Claim(address: string, port: nat, nowMs: nat) returns (target: Option<Target>)
      requires Valid()
      modifies this`entries
      ensures Valid()
      ensures (entries, target) == Claimed(old(entries), TupleKey(address, port), nowMs)
    {
      var key := TupleKey(address, port);
      if key !in entries {
        return None;
      }
      var entry := entries[key];
      entries := entries - {key};
      if entry.expiresAt <= nowMs {
        return None;
      }
      return Some(entry.value);
    }
  }

  function Claimed(m: Table<string, Target>, key: string, now: nat): (r: (Table<string, Target>, Option<Target>)) {
    if key !in m then (m, None)
    else (m - {key}, if m[key].expiresAt > now then Some(m[key].value) else None)
  }

  datatype Event =
    | Observe(address: string, port: nat, targetPort: nat, connectPort: nat, at: nat)
    | Claim(address: string, port: nat, at: nat, result: Option<Target>)
    | Sweep(at: nat)
    | Clear

  ghost predicate Step(m: Table<string, Target>, e: Event, m': Table<string, Target>) {
    match e
    case Observe(address, port, targetPort, connectPort, at) =>
      if Observable(address, port, targetPort, connectPort)
      then
        var entry := Timed(Target(address, targetPort, connectPort), at + PENDING_FLOW_TTL_MS);
        Written(m, m', TupleKey(address, port), entry, at, MAX_PENDING_FLOWS)
      else m' == m
    case Claim(address, port, at, result) => (m', result) == Claimed(m, TupleKey(address, port), at)
    case Sweep(at) => m' == Live(m, at)
    case Clear => m' == map[]
  }

  ghost predicate Run(events: seq<Event>, tables: seq<Table<string, Target>>) {
    && |tables| == |events| + 1 && tables[0] == map[]
    && forall i :: 0 <= i < |events| ==> Step(tables[i], events[i], tables[i + 1])
  }

  predicate Observes(e: Event, address: string, port: nat) {
    e.Observe? && e.address == address && e.port == port && Observable(address, port, e.targetPort, e.connectPort)
  }

  /** The event touches the tuple or wipes the table, so nothing observed before it can be claimed after it. */
  predicate Touches(e: Event, address: string, port: nat) {
    || Observes(e, address, port)
    || (e.Claim? && e.address == address && e.port == port)
    || e.Clear?
  }

  /** Event `i` is the observation that entry holds, and nothing has touched the tuple since. */
  ghost predicate Source(events: seq<Event>, i: nat, n: nat, address: string, port: nat, entry: Timed<Target>)
    requires i < n <= |events|
  {
    && Observes(events[i], address, port)
    && entry == Timed(Target(address, events[i].targetPort, events[i].connectPort), events[i].at + PENDING_FLOW_TTL_MS)
    && forall j :: i < j < n ==> !Touches(events[j], address, port)
  }

  lemma KeyDeterminesTuple(a: string, m: nat, b: string, n: nat)
    requires TupleKey(a, m) == TupleKey(b, n)
    ensures a == b && m == n
  {
    SuffixedInjective(a, m, b, n, '|');
  }

  lemma {:induction false} EntryHasSource(
    events: seq<Event>, tables: seq<Table<string, Target>>, n: nat, address: string, port: nat)
    returns (i: nat)
    requires Run(events, tables) && n <= |events| && TupleKey(address, port) in tables[n]
    ensures i < n && Source(events, i, n, address, port, tables[n][TupleKey(address, port)])
  {
    var e := events[n - 1];
    assert Step(tables[n - 1], e, tables[n]);
    if Observes(e, address, port) {
      i := n - 1;
    } else {
      if e.Observe? && TupleKey(e.address, e.port) == TupleKey(address, port) {
        KeyDeterminesTuple(e.address, e.port, address, port);
      }
      i := EntryHasSource(events, tables, n - 1, address, port);
    }
  }

  /** The claim at `n` is backed by the observation at `i`, which nothing touched in between. */
  predicate Consumes(events: seq<Event>, n: nat, i: nat)
    requires n < |events| && events[n].Claim?
  {
    && i < n && Observes(events[i], events[n].address, events[n].port)
    && events[n].result == Some(Target(events[n].address, events[i].targetPort, events[i].connectPort))
    && events[n].at < events[i].at + PENDING_FLOW_TTL_MS
    && forall j :: i < j < n ==> !Touches(events[j], events[n].address, events[n].port)
  }

  /** A successful claim consumes one fresh observation of its own tuple and returns that observation's target. */
  lemma ClaimConsumesObservation(events: seq<Event>, tables: seq<Table<string, Target>>, n: nat) returns (i: nat)
    requires Run(events, tables) && n < |events| && events[n].Claim? && events[n].result.Some?
    ensures Consumes(events, n, i)
  {
    assert Step(tables[n], events[n], tables[n + 1]);
    i := EntryHasSource(events, tables, n, events[n].address, events[n].port);
  }

  /** Two successful claims never consume the same observation. */
  lemma ClaimsAreDistinct(events: seq<Event>, m: nat, i: nat, n: nat, j: nat)
    requires m < n < |events| && events[m].Claim? && events[n].Claim?
    requires Consumes(events, m, i) && Consumes(events, n, j)
    ensures i != j
  {
    if i == j {
      assert Touches(events[m], events[n].address, events[n].port);
    }
  }

  /** Time does not run backwards. */
  ghost predicate Timely(events: seq<Event>) {
    forall i, j :: 0 <= i < j < |events| && !events[i].Clear? && !events[j].Clear? ==> events[i].at <= events[j].at
  }

  /** The observation at `i` is one the claim at `n` can still have. */
  predicate Backs(events: seq<Event>, n: nat, i: nat)
    requires n < |events| && events[n].Claim?
  {
    && i < n && Observes(events[i], events[n].address, events[n].port)
    && events[n].at < events[i].at + PENDING_FLOW_TTL_MS
    && forall j :: i < j < n ==> !Touches(events[j], events[n].address, events[n].port)
  }

  /** The observation at `j` finds the table full and gives up this tuple, as one with the earliest deadline. */
  ghost predicate EvictedAt(
    events: seq<Event>, tables: seq<Table<string, Target>>, j: nat, address: string, port: nat)
    requires j < |events| && |tables| == |events| + 1
  {
    var key, before, after := TupleKey(address, port), tables[j], tables[j + 1];
    && events[j].Observe? && |before| >= MAX_PENDING_FLOWS && key in before && key !in after
    && forall kept :: kept in after && kept != TupleKey(events[j].address, events[j].port) ==>
         before[key].expiresAt <= after[kept].expiresAt
  }

  /** The observation at `i` was not given up before `n`. */
  ghost predicate Kept(
    events: seq<Event>, tables: seq<Table<string, Target>>, i: nat, n: nat, address: string, port: nat)
    requires n <= |events| && |tables| == |events| + 1
  {
    forall j :: i < j < n ==> !EvictedAt(events, tables, j, address, port)
  }

  /** An untouched entry before its deadline stays, unless it is given up. */
  lemma {:induction false} StepKeepsEntry(
    events: seq<Event>, tables: seq<Table<string, Target>>, j: nat, address: string, port: nat)
    requires Run(events, tables) && j < |events| && !Touches(events[j], address, port)
    requires TupleKey(address, port) in tables[j]
    requires !events[j].Clear? ==> events[j].at < tables[j][TupleKey(address, port)].expiresAt
    ensures EvictedAt(events, tables, j, address, port) || (
      && TupleKey(address, port) in tables[j + 1]
      && tables[j + 1][TupleKey(address, port)] == tables[j][TupleKey(address, port)])
  {
    var e := events[j];
    assert Step(tables[j], e, tables[j + 1]);
    if (e.Observe? || e.Claim?) && TupleKey(e.address, e.port) == TupleKey(address, port) {
      KeyDeterminesTuple(e.address, e.port, address, port);
    }
  }

  lemma {:induction false} EntryStays(
    events: seq<Event>, tables: seq<Table<string, Target>>, i: nat, n: nat, address: string, port: nat)
    requires Run(events, tables) && i < n <= |events| && Observes(events[i], address, port)
    requires Kept(events, tables, i, n, address, port)
    requires forall j :: i < j < n ==> !Touches(events[j], address, port)
    requires forall j :: i < j < n && !events[j].Clear? ==> events[j].at < events[i].at + PENDING_FLOW_TTL_MS
    ensures TupleKey(address, port) in tables[n]
    ensures tables[n][TupleKey(address, port)] ==
      Timed(Target(address, events[i].targetPort, events[i].connectPort), events[i].at + PENDING_FLOW_TTL_MS)
    decreases n
  {
    assert Step(tables[n - 1], events[n - 1], tables[n]);
    if n - 1 > i {
      EntryStays(events, tables, i, n - 1, address, port);
      StepKeepsEntry(events, tables, n - 1, address, port);
    }
  }

  /** A tuple that is gone stays gone until it is observed again. */
  lemma {:induction false} AbsentStays(
    events: seq<Event>, tables: seq<Table<string, Target>>, i: nat, n: nat, address: string, port: nat)
    requires Run(events, tables) && i <= n <= |events| && TupleKey(address, port) !in tables[i]
    requires forall j :: i <= j < n ==> !Observes(events[j], address, port)
    ensures TupleKey(address, port) !in tables[n]
    decreases n - i
  {
    if i < n {
      var e := events[i];
      assert Step(tables[i], e, tables[i + 1]);
      if e.Observe? && TupleKey(e.address, e.port) == TupleKey(address, port) {
        KeyDeterminesTuple(e.address, e.port, address, port);
      }
      AbsentStays(events, tables, i + 1, n, address, port);
    }
  }

  lemma {:induction false} PresentWasKept(
    events: seq<Event>, tables: seq<Table<string, Target>>, i: nat, n: nat, address: string, port: nat)
    requires Run(events, tables) && i < n <= |events| && TupleKey(address, port) in tables[n]
    requires forall j :: i < j < n ==> !Touches(events[j], address, port)
    ensures Kept(events, tables, i, n, address, port)
  {
    forall j | i < j < n ensures !EvictedAt(events, tables, j, address, port) {
      if TupleKey(address, port) !in tables[j + 1] {
        AbsentStays(events, tables, j + 1, n, address, port);
      }
    }
  }

  /**
    A claim succeeds if and only if its tuple was observed less than fifteen seconds before, nothing touched
    it since, and no observation that found the table full gave it up as one with the earliest deadline.
   */
  lemma {:induction false} ClaimSucceedsExactly(events: seq<Event>, tables: seq<Table<string, Target>>, n: nat)
    requires Run(events, tables) && Timely(events) && n < |events| && events[n].Claim?
    ensures events[n].result.Some? <==>
      exists i: nat :: Backs(events, n, i) && Kept(events, tables, i, n, events[n].address, events[n].port)
  {
    assert Step(tables[n], events[n], tables[n + 1]);
    if events[n].result.Some? {
      var i := ClaimConsumesObservation(events, tables, n);
      PresentWasKept(events, tables, i, n, events[n].address, events[n].port);
      assert Backs(events, n, i);
    }
    if i: nat :| Backs(events, n, i) && Kept(events, tables, i, n, events[n].address, events[n].port) {
      EntryStays(events, tables, i, n, events[n].address, events[n].port);
    }
  }

  // ---- datagrams ----

  function Noted(pending: Option<Timed<nat>>, now: nat): (entry: Timed<nat>) {
    var before := if pending.Some? && pending.value.expiresAt > now then pending.value.value else 0;
    Timed(if before + 1 <= MAX_PENDING_DATAGRAMS then before + 1 else MAX_PENDING_DATAGRAMS, now + PENDING_FLOW_TTL_MS)
  }

  function Lookup(m: Table<string, nat>, key: string): Option<Timed<nat>> {
    if key in m then Some(m[key]) else None
  }

  function Taken(m: Table<string, nat>, key: string, now: nat): (r: (Table<string, nat>, bool)) {
    if key !in m then (m, false)
    else if m[key].expiresAt <= now || m[key].value == 0 then (m - {key}, false)
    else if m[key].value == 1 then (m - {key}, true)
    else (m[key := m[key].(value := m[key].value - 1)], true)
  }

  /** An observation of a tuple that is being counted keeps counting unless its deadline has passed. */
  ghost predicate NotedIn(m: Table<string, nat>, m': Table<string, nat>, key: string, now: nat) {
    Written(m, m', key, Noted(Lookup(m, key), now), now, MAX_PENDING_FLOWS)
  }

  /** Sweeping twice and then writing loses nothing that the write may not lose. */
  lemma WrittenAfterSweeps(
    m: Table<string, nat>, once: Table<string, nat>, twice: Table<string, nat>, key: string, entry: Timed<nat>,
    now: nat)
    requires Submap(once, m) && Submap(twice, once) && |once| <= |m|
    requires forall lost :: lost in m && lost !in once ==> m[lost].expiresAt <= now
    requires forall lost :: lost in once && lost !in twice ==>
      || once[lost].expiresAt <= now
      || (|once| >= MAX_PENDING_FLOWS && forall kept :: kept in twice ==> once[lost].expiresAt <= twice[kept].expiresAt)
    ensures Written(m, twice[key := entry], key, entry, now, MAX_PENDING_FLOWS)
  {
  }

  class DatagramRegistry {
    var entries: Table<string, nat>
    var nextPruneMs: nat

    ghost predicate Valid()
      reads this
    {
      |entries| <= MAX_PENDING_FLOWS
    }

    constructor ()
      ensures Valid() && entries == map[]
    {
      entries, nextPruneMs := map[], 0;
    }

    method Observe(address: string, clientPort: nat, nowMs: nat)
      requires Valid()
      modifies this
      ensures Valid()
      ensures if address != "" && clientPort != 0
        then NotedIn(old(entries), entries, TupleKey(address, clientPort), nowMs)
        else entries == old(entries)
    {
      if address == "" || clientPort == 0 {
        return;
      }
      Note(TupleKey(address, clientPort), nowMs);
    }

    /** One more datagram on the tuple; a count whose deadline has passed starts again. */
    method Note(key: string, nowMs: nat)
      requires Valid()
      modifies this
      ensures Valid() && NotedIn(old(entries), entries, key, nowMs)
    {
      ghost var m := entries;
      entries, nextPruneMs := Swept(entries, nextPruneMs, nowMs, false);
      ghost var once := entries;
      if key in entries {
        var before := if entries[key].expiresAt <= nowMs then 0 else entries[key].value;
        var pending := if before + 1 <= MAX_PENDING_DATAGRAMS then before + 1 else MAX_PENDING_DATAGRAMS;
        WriteSize(entries, key, Timed(pending, nowMs + PENDING_FLOW_TTL_MS));
        WrittenAfterSweeps(m, once, once, key, Timed(pending, nowMs + PENDING_FLOW_TTL_MS), nowMs);
        entries := entries[key := Timed(pending, nowMs + PENDING_FLOW_TTL_MS)];
        return;
      }
      entries, nextPruneMs := Swept(entries, nextPruneMs, nowMs, true);
      WriteSize(entries, key, Timed(1, nowMs + PENDING_FLOW_TTL_MS));
      WrittenAfterSweeps(m, once, entries, key, Timed(1, nowMs + PENDING_FLOW_TTL_MS), nowMs);
      entries := entries[key := Timed(1, nowMs + PENDING_FLOW_TTL_MS)];
    }

    method Claim(address: string, port: nat, nowMs: nat) returns (taken: bool)
      requires Valid()
      modifies this`entries
      ensures Valid()
      ensures (entries, taken) == Taken(old(entries), TupleKey(address, port), nowMs)
    {
      var key := TupleKey(address, port);
      if key !in entries {
        return false;
      }
      var entry := entries[key];
      if entry.expiresAt <= nowMs || entry.value == 0 {
        entries := entries - {key};
        return false;
      }
      if entry.value - 1 == 0 {
        entries := entries - {key};
      } else {
        WriteSize(entries, key, entry.(value := entry.value - 1));
        entries := entries[key := entry.(value := entry.value - 1)];
      }
      return true;
    }
  }

  datatype Datagram =
    | Seen(address: string, port: nat, at: nat)
    | Asked(address: string, port: nat, at: nat, taken: bool)
    | Pruned(at: nat)
    | Reset

  ghost predicate DatagramStep(m: Table<string, nat>, e: Datagram, m': Table<string, nat>) {
    match e
    case Seen(address, port, at) =>
      if address != "" && port != 0 then NotedIn(m, m', TupleKey(address, port), at) else m' == m
    case Asked(address, port, at, taken) => (m', taken) == Taken(m, TupleKey(address, port), at)
    case Pruned(at) => m' == Live(m, at)
    case Reset => m' == map[]
  }

  ghost predicate DatagramRun(events: seq<Datagram>, tables: seq<Table<string, nat>>) {
    && |tables| == |events| + 1 && tables[0] == map[]
    && forall i :: 0 <= i < |events| ==> DatagramStep(tables[i], events[i], tables[i + 1])
  }

  predicate SeenOn(e: Datagram, key: string) {
    e.Seen? && e.address != "" && e.port != 0 && TupleKey(e.address, e.port) == key
  }

  predicate TakenOn(e: Datagram, key: string) {
    e.Asked? && e.taken && TupleKey(e.address, e.port) == key
  }

  function CountSeen(events: seq<Datagram>, n: nat, key: string): (count: nat)
    requires n <= |events|
  {
    if n == 0 then 0 else CountSeen(events, n - 1, key) + if SeenOn(events[n - 1], key) then 1 else 0
  }

  function CountTaken(events: seq<Datagram>, n: nat, key: string): (count: nat)
    requires n <= |events|
  {
    if n == 0 then 0 else CountTaken(events, n - 1, key) + if TakenOn(events[n - 1], key) then 1 else 0
  }

  /** The datagrams still claimable on a tuple. */
  function Outstanding(m: Table<string, nat>, key: string): nat {
    if key in m then m[key].value else 0
  }

  lemma OutstandingStep(m: Table<string, nat>, e: Datagram, m': Table<string, nat>, key: string)
    requires DatagramStep(m, e, m') && Outstanding(m, key) <= MAX_PENDING_DATAGRAMS
    ensures (if TakenOn(e, key) then 1 else 0) + Outstanding(m', key)
         <= Outstanding(m, key) + if SeenOn(e, key) then 1 else 0
    ensures Outstanding(m', key) <= MAX_PENDING_DATAGRAMS
  {
  }

  lemma {:induction false} ClaimsNeverExceedObservations(
    events: seq<Datagram>, tables: seq<Table<string, nat>>, n: nat, key: string)
    requires DatagramRun(events, tables) && n <= |events|
    ensures CountTaken(events, n, key) + Outstanding(tables[n], key) <= CountSeen(events, n, key)
    ensures Outstanding(tables[n], key) <= MAX_PENDING_DATAGRAMS
  {
    if n > 0 {
      ClaimsNeverExceedObservations(events, tables, n - 1, key);
      OutstandingStep(tables[n - 1], events[n - 1], tables[n], key);
    }
  }

  /** A claimed datagram was preceded, less than fifteen seconds before, by one observed on the same tuple. */
  lemma {:induction false} EntryIsRecent(
    events: seq<Datagram>, tables: seq<Table<string, nat>>, n: nat, key: string) returns (i: nat)
    requires DatagramRun(events, tables) && n <= |events| && key in tables[n]
    ensures i < n && SeenOn(events[i], key) && tables[n][key].expiresAt == events[i].at + PENDING_FLOW_TTL_MS
  {
    assert DatagramStep(tables[n - 1], events[n - 1], tables[n]);
    if SeenOn(events[n - 1], key) {
      i := n - 1;
    } else {
      i := EntryIsRecent(events, tables, n - 1, key);
    }
  }

  lemma DatagramClaimIsBacked(events: seq<Datagram>, tables: seq<Table<string, nat>>, n: nat) returns (i: nat)
    requires DatagramRun(events, tables) && n < |events| && events[n].Asked? && events[n].taken
    ensures i < n && SeenOn(events[i], TupleKey(events[n].address, events[n].port))
    ensures events[i].address == events[n].address && events[i].port == events[n].port
    ensures events[n].at < events[i].at + PENDING_FLOW_TTL_MS
    ensures var key := TupleKey(events[n].address, events[n].port);
      CountTaken(events, n + 1, key) <= CountSeen(events, n, key)
  {
    var key := TupleKey(events[n].address, events[n].port);
    assert DatagramStep(tables[n], events[n], tables[n + 1]);
    i := EntryIsRecent(events, tables, n, key);
    KeyDeterminesTuple(events[i].address, events[i].port, events[n].address, events[n].port);
    ClaimsNeverExceedObservations(events, tables, n + 1, key);
    assert CountSeen(events, n + 1, key) == CountSeen(events, n, key);
  }

  // ---- the other side ----

  /** Event `k` finds the tuple before its deadline, with room in its count, and does not give it up. */
  ghost predicate Undisturbed(events: seq<Datagram>, tables: seq<Table<string, nat>>, k: nat, key: string)
    requires k < |events| && |tables| == |events| + 1
  {
    && !events[k].Reset?
    && (key in tables[k] ==> events[k].at < tables[k][key].expiresAt)
    && (SeenOn(events[k], key) ==> Outstanding(tables[k], key) < 32)
    && (events[k].Seen? && key in tables[k] ==> key in tables[k + 1])
  }

  lemma {:induction false} BalanceStep(events: seq<Datagram>, tables: seq<Table<string, nat>>, k: nat, key: string)
    requires DatagramRun(events, tables) && k < |events| && Undisturbed(events, tables, k, key)
    requires key in tables[k] ==> tables[k][key].value > 0
    ensures key in tables[k + 1] ==> tables[k + 1][key].value > 0
    ensures (if TakenOn(events[k], key) then 1 else 0) + Outstanding(tables[k + 1], key) ==
      Outstanding(tables[k], key) + (if SeenOn(events[k], key) then 1 else 0)
    ensures events[k].Asked? && TupleKey(events[k].address, events[k].port) == key ==>
      (events[k].taken <==> Outstanding(tables[k], key) > 0)
  {
    assert DatagramStep(tables[k], events[k], tables[k + 1]);
  }

  lemma {:induction false} BalanceHolds(events: seq<Datagram>, tables: seq<Table<string, nat>>, n: nat, key: string)
    requires DatagramRun(events, tables) && n <= |events|
    requires forall k :: 0 <= k < n ==> Undisturbed(events, tables, k, key)
    ensures CountTaken(events, n, key) + Outstanding(tables[n], key) == CountSeen(events, n, key)
    ensures key in tables[n] ==> tables[n][key].value > 0
  {
    if n > 0 {
      BalanceHolds(events, tables, n - 1, key);
      BalanceStep(events, tables, n - 1, key);
    }
  }

  /**
    On a tuple that nothing disturbed, a claim succeeds if and only if fewer datagrams were taken than seen.
   */
  lemma {:induction false} DatagramClaimExactly(
    events: seq<Datagram>, tables: seq<Table<string, nat>>, n: nat, key: string)
    requires DatagramRun(events, tables) && n < |events|
    requires forall k :: 0 <= k <= n ==> Undisturbed(events, tables, k, key)
    requires events[n].Asked? && TupleKey(events[n].address, events[n].port) == key
    ensures events[n].taken <==> CountTaken(events, n, key) < CountSeen(events, n, key)
  {
    BalanceHolds(events, tables, n, key);
    BalanceStep(events, tables, n, key);
  }

  /** A claim behind the deadline fails. */
  lemma {:induction false} LateDatagramFails(
    events: seq<Datagram>, tables: seq<Table<string, nat>>, n: nat, key: string)
    requires DatagramRun(events, tables) && n < |events| && events[n].Asked?
    requires TupleKey(events[n].address, events[n].port) == key
    requires forall i :: 0 <= i < n && SeenOn(events[i], key) ==> events[i].at + 15000 <= events[n].at
    ensures !events[n].taken
  {
    assert DatagramStep(tables[n], events[n], tables[n + 1]);
    if key in tables[n] {
      var i := EntryIsRecent(events, tables, n, key);
    }
  }
}
