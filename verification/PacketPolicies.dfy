/**
  The registry that joins a probe with the packet that carries its hello. The prober arms a policy
  for a connection, the packet loop takes it for the first TLS payload and for retransmissions of
  that same segment, reports when it really changed the wire, and the prober asks afterwards.

  Over every run: between two armings of a key all sequence-aware takes that succeed see one policy
  and one TCP sequence number; a take hands out the policy of the last arming, except that a
  time-to-live trick comes out with a time-to-live of at least 2 and below an inferred path length, or
  as another trick; and the prober is told "applied" only if the loop said so since the arming.
 */
module PacketPolicies {
  import opened Collections
  import opened Basics
  import opened Expiring

  const POLICY_TTL_MS := 15000
  const APPLIED_TTL_MS := 60000
  const PRUNE_INTERVAL_MS := 1000
  const MAX_ENTRIES := 8192

  datatype Mode = NoMode | ReverseOrder | FakeBadSequence | FakeBadChecksum | FakeAutoTtl | SequenceOverlap | IpFragment
  datatype Policy = Policy(
    mode: Mode, splitOffset: nat, overlapBytes: nat, fakeSequenceDelta: int, fakeTtl: nat, coverSni: string,
    sniBegin: nat, sniEnd: nat)

  datatype Key = Key(address: seq<int>, port: nat)
  datatype Entry = Entry(policy: Policy, taken: bool, sequence: Option<nat>, applied: bool)

  type Policies = Table<Key, Entry>
  type Hops = Table<Key, nat>

  datatype State = State(policies: Policies, hops: Hops)

  /** The hops a packet travelled, judged from the usual initial time-to-live values. */
  function InferPathHops(receivedTtl: nat): (hops: nat)
    requires receivedTtl < 256
  {
    if receivedTtl <= 64 then 64 - receivedTtl
    else if receivedTtl <= 128 then 128 - receivedTtl
    else 255 - receivedTtl
  }

  /** What the first take hands out: an AutoTTL policy is resolved here, or replaced. */
  function Resolved(policy: Policy, hops: Hops, key: Key, now: nat): (p: Policy) {
    if policy.mode != FakeAutoTtl then policy
    else if key !in hops || hops[key].expiresAt <= now || hops[key].value < 3 then
      policy.(mode := FakeBadSequence, fakeSequenceDelta := -10000)
    else policy.(fakeTtl := Max(2, hops[key].value - 1))
  }

  function Taken(s: State, key: Key, sequence: Option<nat>, now: nat): (r: (Policies, Option<Policy>)) {
    var m := s.policies;
    if key !in m then (m, None)
    else if m[key].expiresAt <= now then (m - {key}, None)
    else
      var e := m[key].value;
      if e.taken then (m, if sequence.Some? && e.sequence == sequence then Some(e.policy) else None)
      else
        var policy := Resolved(e.policy, s.hops, key, now);
        (m[key := m[key].(value := Entry(policy, true, sequence, e.applied))], Some(policy))
  }

  function NotedApplied(m: Policies, key: Key, now: nat): (m': Policies) {
    if key !in m then m
    else
      var until := now + APPLIED_TTL_MS;
      m[key := Timed(m[key].value.(applied := true), Max(m[key].expiresAt, until))]
  }

  function AppliedAnswer(m: Policies, key: Key, now: nat): bool {
    key in m && m[key].value.applied && m[key].expiresAt > now
  }

  predicate Armable(key: Key, policy: Policy) {
    key.port != 0 && policy.mode != NoMode
  }

  // ---- the registry ----

  class PolicyRegistry {
    var policies: Policies
    var hops: Hops
    var nextPruneMs: nat

    ghost function View(): State
      reads this
    {
      State(policies, hops)
    }

    ghost predicate Valid()
      reads this
    {
      |policies| <= MAX_ENTRIES && |hops| <= MAX_ENTRIES
    }

    constructor ()
      ensures Valid() && View() == State(map[], map[]) && nextPruneMs == 0
    {
      policies, hops, nextPruneMs := map[], map[], 0;
    }

    /** Sweeps both tables, at most once a second. */
    method PruneIfDue(nowMs: nat)
      requires Valid()
      modifies this
      ensures Valid()
      ensures nowMs < old(nextPruneMs) ==>
        policies == old(policies) && hops == old(hops) && nextPruneMs == old(nextPruneMs)
      ensures nowMs >= old(nextPruneMs) ==>
        && policies == Live(old(policies), nowMs) && hops == Live(old(hops), nowMs)
        && nextPruneMs == nowMs + PRUNE_INTERVAL_MS
    {
      if nowMs < nextPruneMs {
        return;
      }
      nextPruneMs := nowMs + PRUNE_INTERVAL_MS;
      LiveIsSmaller(policies, nowMs);
      LiveIsSmaller(hops, nowMs);
      policies := Live(policies, nowMs);
      hops := Live(hops, nowMs);
    }

    method Arm(key: Key, policy: Policy, nowMs: nat)
      requires Valid()
      modifies this
      ensures Valid()
      ensures Step(old(View()), Arming(key, policy, nowMs), View())
    {
      if key.port == 0 || policy.mode == NoMode {
        return;
      }
      PruneIfDue(nowMs);
      ghost var swept := policies;
      var entry := Timed(Entry(policy, false, None, false), nowMs + POLICY_TTL_MS);
      policies := WriteBounded(policies, key, entry, nowMs, MAX_ENTRIES);
      WrittenAfterSweep(old(policies), swept, policies, key, entry, nowMs, MAX_ENTRIES);
    }

    method ObserveHop(key: Key, receivedTtl: nat, nowMs: nat)
      requires Valid() && receivedTtl < 256
      modifies this
      ensures Valid()
      ensures Step(old(View()), Hop(key, receivedTtl, nowMs), View())
    {
      if key.port == 0 || receivedTtl == 0 {
        return;
      }
      var pathHops := InferPathHops(receivedTtl);
      if pathHops == 0 {
        return;
      }
      PruneIfDue(nowMs);
      ghost var swept := hops;
      var entry := Timed(pathHops, nowMs + POLICY_TTL_MS);
      hops := WriteBounded(hops, key, entry, nowMs, MAX_ENTRIES);
      WrittenAfterSweep(old(hops), swept, hops, key, entry, nowMs, MAX_ENTRIES);
    }

    method Take(key: Key, sequence: Option<nat>, nowMs: nat) returns (policy: Option<Policy>)
      requires Valid()
      modifies this`policies
      ensures Valid()
      ensures Step(old(View()), Taking(key, sequence, nowMs, policy), View())
    {
      if key !in policies {
        return None;
      }
      var entry := policies[key];
      if entry.expiresAt <= nowMs {
        policies := policies - {key};
        return None;
      }
      var e := entry.value;
      if e.taken {
        if sequence.Some? && e.sequence.Some? && e.sequence.value == sequence.value {
          return Some(e.policy);
        }
        return None;
      }
      e := e.(taken := true, sequence := sequence);
      if e.policy.mode == FakeAutoTtl {
        if key !in hops || hops[key].expiresAt <= nowMs || hops[key].value < 3 {
          e := e.(policy := e.policy.(mode := FakeBadSequence, fakeSequenceDelta := -10000));
        } else {
          e := e.(policy := e.policy.(fakeTtl := Max(2, hops[key].value - 1)));
        }
      }
      WriteSize(policies, key, entry.(value := e));
      policies := policies[key := entry.(value := e)];
      return Some(e.policy);
    }

    method NoteApplied(key: Key, nowMs: nat)
      requires Valid()
      modifies this`policies
      ensures Valid()
      ensures Step(old(View()), Applying(key, nowMs), View())
    {
      if key !in policies {
        return;
      }
      var entry := policies[key];
      var until := nowMs + APPLIED_TTL_MS;
      var noted := Timed(entry.value.(applied := true), Max(entry.expiresAt, until));
      WriteSize(policies, key, noted);
      policies := policies[key := noted];
    }

    method ConsumeApplied(key: Key, nowMs: nat) returns (applied: bool)
      requires Valid()
      modifies this`policies
      ensures Valid()
      ensures Step(old(View()), Asking(key, nowMs, applied), View())
    {
      if key !in policies {
        return false;
      }
      applied := policies[key].value.applied && policies[key].expiresAt > nowMs;
      policies := policies - {key};
    }

    method Clear()
      modifies this
      ensures Valid() && Step(old(View()), Clearing, View())
    {
      policies, hops, nextPruneMs := map[], map[], 0;
    }
  }

  // ---- runs ----

  datatype Event =
    | Arming(key: Key, policy: Policy, at: nat)
    | Hop(key: Key, receivedTtl: nat, at: nat)
    | Taking(key: Key, sequence: Option<nat>, at: nat, result: Option<Policy>)
    | Applying(key: Key, at: nat)
    | Asking(key: Key, at: nat, answer: bool)
    | Clearing

  predicate HopCounts(receivedTtl: nat, port: nat) {
    port != 0 && 0 < receivedTtl < 256 && InferPathHops(receivedTtl) > 0
  }

  ghost predicate Step(s: State, e: Event, s': State) {
    match e
    case Arming(key, policy, at) =>
      if Armable(key, policy)
      then
        var entry := Timed(Entry(policy, false, None, false), at + POLICY_TTL_MS);
        && Written(s.policies, s'.policies, key, entry, at, MAX_ENTRIES)
        && (s'.hops == s.hops || s'.hops == Live(s.hops, at))
      else s' == s
    case Hop(key, receivedTtl, at) =>
      if HopCounts(receivedTtl, key.port)
      then
        var entry := Timed(InferPathHops(receivedTtl), at + POLICY_TTL_MS);
        && Written(s.hops, s'.hops, key, entry, at, MAX_ENTRIES)
        && (s'.policies == s.policies || s'.policies == Live(s.policies, at))
      else s' == s
    case Taking(key, sequence, at, result) => (s'.policies, result) == Taken(s, key, sequence, at) && s'.hops == s.hops
    case Applying(key, at) => s' == s.(policies := NotedApplied(s.policies, key, at))
    case Asking(key, at, answer) =>
      s' == s.(policies := s.policies - {key}) && answer == AppliedAnswer(s.policies, key, at)
    case Clearing => s' == State(map[], map[])
  }

  ghost predicate Run(events: seq<Event>, states: seq<State>) {
    && |states| == |events| + 1 && states[0] == State(map[], map[])
    && forall i :: 0 <= i < |events| ==> StepAt(events, states, i)
  }

  ghost predicate StepAt(events: seq<Event>, states: seq<State>, i: nat)
    requires i < |events| && |states| == |events| + 1
  {
    Step(states[i], events[i], states[i + 1])
  }

  predicate Arms(e: Event, key: Key) {
    e.Arming? && e.key == key && Armable(key, e.policy)
  }

  predicate TakesFor(e: Event, key: Key) {
    e.Taking? && e.key == key && e.sequence.Some? && e.result.Some?
  }

  /** The key is gone, or still carries exactly this policy for exactly this segment. */
  ghost predicate Pinned(s: State, key: Key, policy: Policy, sequence: nat) {
    key in s.policies ==>
      var e := s.policies[key].value;
      e.taken && e.sequence == Some(sequence) && e.policy == policy
  }

  lemma StepKeepsPinned(s: State, e: Event, s': State, key: Key, policy: Policy, sequence: nat)
    requires Step(s, e, s') && Pinned(s, key, policy, sequence) && !Arms(e, key)
    ensures Pinned(s', key, policy, sequence)
    ensures TakesFor(e, key) ==> e.result == Some(policy) && e.sequence == Some(sequence)
  {
  }

  lemma {:induction false} PinnedUntilArmed(events: seq<Event>, states: seq<State>, i: nat, n: nat)
    requires Run(events, states) && i < n <= |events| && events[i].Taking? && TakesFor(events[i], events[i].key)
    requires forall k :: i < k < n ==> !Arms(events[k], events[i].key)
    ensures Pinned(states[n], events[i].key, events[i].result.value, events[i].sequence.value)
    decreases n
  {
    assert StepAt(events, states, n - 1);
    if n - 1 > i {
      PinnedUntilArmed(events, states, i, n - 1);
      var take := events[i];
      StepKeepsPinned(states[n - 1], events[n - 1], states[n], take.key, take.result.value, take.sequence.value);
    }
  }

  /** Between two armings of a key, every take that succeeds sees the same policy for the same segment. */
  lemma RetransmissionsGetTheSameTreatment(events: seq<Event>, states: seq<State>, i: nat, j: nat)
    requires Run(events, states) && i < j < |events|
    requires events[i].Taking? && TakesFor(events[i], events[i].key) && TakesFor(events[j], events[i].key)
    requires forall k :: i < k < j ==> !Arms(events[k], events[i].key)
    ensures events[j].sequence == events[i].sequence && events[j].result == events[i].result
  {
    PinnedUntilArmed(events, states, i, j);
    var take := events[i];
    assert StepAt(events, states, j);
    StepKeepsPinned(states[j], events[j], states[j + 1], take.key, take.result.value, take.sequence.value);
  }

  // ---- AutoTTL ----

  /** Some hop sample of the key before `n` puts the server more than `ttl` hops away. */
  ghost predicate Sampled(events: seq<Event>, n: nat, key: Key, ttl: nat)
    requires n <= |events|
  {
    exists i :: 0 <= i < n && SampleAbove(events[i], key, ttl)
  }

  predicate SampleAbove(e: Event, key: Key, ttl: nat) {
    e.Hop? && e.key == key && HopCounts(e.receivedTtl, key.port) && ttl < InferPathHops(e.receivedTtl)
  }

  lemma {:induction false} HopsAreSamples(events: seq<Event>, states: seq<State>, n: nat, key: Key)
    requires Run(events, states) && n <= |events| && key in states[n].hops
    ensures states[n].hops[key].value > 0 && Sampled(events, n, key, states[n].hops[key].value - 1)
  {
    var e := events[n - 1];
    assert StepAt(events, states, n - 1);
    if e.Hop? && e.key == key && HopCounts(e.receivedTtl, key.port) {
      assert SampleAbove(e, key, states[n].hops[key].value - 1);
    } else {
      HopsAreSamples(events, states, n - 1, key);
      var i :| 0 <= i < n - 1 && SampleAbove(events[i], key, states[n].hops[key].value - 1);
    }
  }

  // ---- applied ----

  predicate ReportsFor(e: Event, key: Key) {
    e.Applying? && e.key == key
  }

  /** The loop reported the key at `i`, and the key has not been armed since. */
  predicate ReportedSince(events: seq<Event>, i: nat, n: nat, key: Key)
    requires i < n <= |events|
  {
    ReportsFor(events[i], key) && forall k :: i < k < n ==> !Arms(events[k], key)
  }

  lemma {:induction false} AppliedWasReported(events: seq<Event>, states: seq<State>, n: nat, key: Key) returns (i: nat)
    requires Run(events, states) && n <= |events|
    requires key in states[n].policies && states[n].policies[key].value.applied
    ensures i < n && ReportedSince(events, i, n, key) && key in states[i].policies
  {
    assert StepAt(events, states, n - 1);
    if ReportsFor(events[n - 1], key) {
      i := n - 1;
    } else {
      i := AppliedWasReported(events, states, n - 1, key);
    }
  }

  /** The last arming of a key that is in the registry. */
  lemma {:induction false} ArmedBefore(events: seq<Event>, states: seq<State>, n: nat, key: Key) returns (a: nat)
    requires Run(events, states) && n <= |events| && key in states[n].policies
    ensures a < n && Arms(events[a], key) && forall k :: a < k < n ==> !Arms(events[k], key)
  {
    assert StepAt(events, states, n - 1);
    if Arms(events[n - 1], key) {
      a := n - 1;
    } else {
      a := ArmedBefore(events, states, n - 1, key);
    }
  }

  /** The prober hears "applied" only if the key was armed and the loop reported it since the last arming. */
  lemma AppliedOnlyIfReported(events: seq<Event>, states: seq<State>, n: nat) returns (a: nat, i: nat)
    requires Run(events, states) && n < |events| && events[n].Asking? && events[n].answer
    ensures a < i < n && Arms(events[a], events[n].key) && ReportsFor(events[i], events[n].key)
    ensures forall k :: a < k < n ==> !Arms(events[k], events[n].key)
  {
    assert StepAt(events, states, n);
    i := AppliedWasReported(events, states, n, events[n].key);
    a := ArmedBefore(events, states, i, events[n].key);
    assert !Arms(events[i], events[n].key);
  }

  // ---- what becomes of an armed policy ----

  /** A policy handed out for `armed`: the same, unless it relies on AutoTTL; then resolved, or as bad-sequence. */
  ghost predicate ComesOutAs(events: seq<Event>, n: nat, key: Key, armed: Policy, p: Policy)
    requires n <= |events|
  {
    if armed.mode != FakeAutoTtl then p == armed
    else
      || p == armed.(mode := FakeBadSequence, fakeSequenceDelta := -10000)
      || (p == armed.(fakeTtl := p.fakeTtl) && 2 <= p.fakeTtl && Sampled(events, n, key, p.fakeTtl))
  }

  lemma {:induction false} SampledLater(events: seq<Event>, m: nat, n: nat, key: Key, ttl: nat)
    requires m <= n <= |events| && Sampled(events, m, key, ttl)
    ensures Sampled(events, n, key, ttl)
  {
  }

  /** An arming writes its policy; without one, only the first take changes the policy of an entry. */
  lemma {:induction false} StepMakesEntry(events: seq<Event>, states: seq<State>, n: nat, key: Key)
    requires Run(events, states) && n < |events| && key in states[n + 1].policies
    ensures Arms(events[n], key) ==>
      var e := states[n + 1].policies[key].value; !e.taken && e.policy == events[n].policy
    ensures !Arms(events[n], key) ==>
      && key in states[n].policies
      && var before, after := states[n].policies[key].value, states[n + 1].policies[key].value;
      if after.taken && !before.taken
      then events[n].Taking? && after.policy == Resolved(before.policy, states[n].hops, key, events[n].at)
      else after.policy == before.policy && after.taken == before.taken
  {
    assert StepAt(events, states, n);
  }

  /** What the first take makes of an armed policy. */
  lemma {:induction false} ResolvedComesOut(
    events: seq<Event>, states: seq<State>, n: nat, key: Key, armed: Policy, now: nat)
    requires Run(events, states) && n < |events|
    ensures ComesOutAs(events, n + 1, key, armed, Resolved(armed, states[n].hops, key, now))
  {
    if key in states[n].hops {
      HopsAreSamples(events, states, n, key);
      SampledLater(events, n, n + 1, key, states[n].hops[key].value - 1);
    }
  }

  lemma {:induction false} ComesOutLater(events: seq<Event>, m: nat, n: nat, key: Key, armed: Policy, p: Policy)
    requires m <= n <= |events| && ComesOutAs(events, m, key, armed, p)
    ensures ComesOutAs(events, n, key, armed, p)
  {
    if Sampled(events, m, key, p.fakeTtl) { SampledLater(events, m, n, key, p.fakeTtl); }
  }

  /** The entry holds what was armed, or what the first take made of it. */
  ghost predicate HoldsArmed(events: seq<Event>, n: nat, key: Key, armed: Policy, e: Entry)
    requires n <= |events|
  {
    if e.taken then ComesOutAs(events, n, key, armed, e.policy) else e.policy == armed
  }

  lemma {:induction false} StepHoldsArmed(
    events: seq<Event>, states: seq<State>, n: nat, key: Key, armed: Policy, before: Entry, after: Entry)
    requires Run(events, states) && n < |events| && HoldsArmed(events, n, key, armed, before)
    requires if after.taken && !before.taken
      then events[n].Taking? && after.policy == Resolved(before.policy, states[n].hops, key, events[n].at)
      else after.policy == before.policy && after.taken == before.taken
    ensures HoldsArmed(events, n + 1, key, armed, after)
  {
    if before.taken {
      ComesOutLater(events, n, n + 1, key, armed, before.policy);
    } else if after.taken {
      ResolvedComesOut(events, states, n, key, armed, events[n].at);
    }
  }

  /** An entry still holds what its last arming put there, or what the first take made of it. */
  lemma {:induction false} EntryComesFromArming(
    events: seq<Event>, states: seq<State>, n: nat, key: Key) returns (a: nat)
    requires Run(events, states) && n <= |events| && key in states[n].policies
    ensures a < n && Arms(events[a], key) && forall k :: a < k < n ==> !Arms(events[k], key)
    ensures HoldsArmed(events, n, key, events[a].policy, states[n].policies[key].value)
  {
    StepMakesEntry(events, states, n - 1, key);
    if Arms(events[n - 1], key) {
      a := n - 1;
    } else {
      a := EntryComesFromArming(events, states, n - 1, key);
      var before, after := states[n - 1].policies[key].value, states[n].policies[key].value;
      StepHoldsArmed(events, states, n - 1, key, events[a].policy, before, after);
    }
  }

  /**
    Every take hands out the policy of the last arming; AutoTTL comes out resolved or as bad-sequence, and no
    other way.
   */
  lemma {:induction false} TakeHandsOutWhatWasArmed(events: seq<Event>, states: seq<State>, n: nat) returns (a: nat)
    requires Run(events, states) && n < |events| && events[n].Taking? && events[n].result.Some?
    ensures a < n && Arms(events[a], events[n].key) && forall k :: a < k < n ==> !Arms(events[k], events[n].key)
    ensures ComesOutAs(events, n + 1, events[n].key, events[a].policy, events[n].result.value)
  {
    assert StepAt(events, states, n);
    a := EntryComesFromArming(events, states, n + 1, events[n].key);
    assert !Arms(events[n], events[n].key);
  }
}
