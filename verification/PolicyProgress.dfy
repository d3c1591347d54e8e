/**
  What the policy registry must hand out and answer, over every run: the other side of what it may.

  Main results, for a key whose entry nothing removed since its last arming: the first take within fifteen
  seconds gets the armed policy; after it, a take gets that policy if and only if it is for the same segment;
  an AutoTTL policy comes out with one hop less than the last live sample of the path, and as the
  bad-sequence trick exactly when there is none of three hops or more; and the prober is told "applied" if and
  only if a report came since the arming, for sixty seconds after it.
 */
module PolicyProgress {
  import opened Basics
  import opened Expiring
  import opened PacketPolicies

  // ---- the entry of a key ----

  ghost predicate LastArmed(events: seq<Event>, a: nat, n: nat, key: Key) {
    a < n <= |events| && Arms(events[a], key) && forall k :: a < k < n ==> !Arms(events[k], key)
  }

  function TimeOf(e: Event): nat {
    if e.Clearing? then 0 else e.at
  }

  /** An entry of a table with 8192 is given up for another key: none that is left has an earlier deadline. */
  predicate GivenUp<V>(m: Table<Key, V>, m': Table<Key, V>, key: Key, other: Key) {
    && key in m && key !in m' && |m| >= 8192
    && forall kept :: kept in m' && kept != other && kept in m ==> m[key].expiresAt <= m[kept].expiresAt
  }

  /** Event `k` finds the registry full and gives up this key for another. */
  ghost predicate CrowdsOut(events: seq<Event>, states: seq<State>, k: nat, key: Key)
    requires k < |events| && |states| == |events| + 1
  {
    events[k].Arming? && events[k].key != key && GivenUp(states[k].policies, states[k + 1].policies, key, events[k].key)
  }

  /** Event `k` removes nothing of the key, whose entry lives until `deadline` at least. */
  ghost predicate Leaves(events: seq<Event>, states: seq<State>, k: nat, key: Key, deadline: nat)
    requires k < |events| && |states| == |events| + 1
  {
    && !events[k].Clearing? && !(events[k].Asking? && events[k].key == key) && !CrowdsOut(events, states, k, key)
    && TimeOf(events[k]) < deadline
  }

  predicate LivesUntil(s: State, key: Key, deadline: nat) {
    key in s.policies && s.policies[key].expiresAt >= deadline
  }

  lemma {:induction false} LeavesStep(events: seq<Event>, states: seq<State>, k: nat, key: Key, deadline: nat)
    requires Run(events, states) && k < |events| && LivesUntil(states[k], key, deadline)
    requires Leaves(events, states, k, key, deadline) && !Arms(events[k], key)
    ensures LivesUntil(states[k + 1], key, deadline)
  {
    assert StepAt(events, states, k);
  }

  lemma {:induction false} EntryLives(
    events: seq<Event>, states: seq<State>, i: nat, n: nat, key: Key, deadline: nat)
    requires Run(events, states) && i <= n <= |events| && LivesUntil(states[i], key, deadline)
    requires forall k :: i <= k < n ==> Leaves(events, states, k, key, deadline) && !Arms(events[k], key)
    ensures LivesUntil(states[n], key, deadline)
    decreases n
  {
    if i < n {
      EntryLives(events, states, i, n - 1, key, deadline);
      LeavesStep(events, states, n - 1, key, deadline);
    }
  }

  /** Nothing removed the entry between the arming `a` and `n`, and the clock is within fifteen seconds of it. */
  ghost predicate Alive(events: seq<Event>, states: seq<State>, a: nat, n: nat, key: Key)
    requires n <= |events| && |states| == |events| + 1 && a < n && events[a].Arming?
  {
    var deadline := events[a].at + 15000;
    forall k :: a < k < n ==> Leaves(events, states, k, key, deadline)
  }

  lemma {:induction false} ArmedLives(events: seq<Event>, states: seq<State>, a: nat, n: nat, key: Key)
    requires Run(events, states) && LastArmed(events, a, n, key) && Alive(events, states, a, n, key)
    ensures LivesUntil(states[n], key, events[a].at + 15000)
  {
    assert StepAt(events, states, a);
    EntryLives(events, states, a + 1, n, key, events[a].at + 15000);
  }

  // ---- takes ----

  lemma {:induction false} UntakenStep(events: seq<Event>, states: seq<State>, k: nat, key: Key, policy: Policy)
    requires Run(events, states) && k < |events| && !Arms(events[k], key)
    requires key in states[k].policies ==>
      !states[k].policies[key].value.taken && states[k].policies[key].value.policy == policy
    requires !(events[k].Taking? && events[k].key == key)
    ensures key in states[k + 1].policies ==>
      !states[k + 1].policies[key].value.taken && states[k + 1].policies[key].value.policy == policy
  {
    assert StepAt(events, states, k);
  }

  lemma {:induction false} UntakenUntilTaken(events: seq<Event>, states: seq<State>, a: nat, n: nat, key: Key)
    requires Run(events, states) && LastArmed(events, a, n, key)
    requires forall k :: a < k < n ==> !(events[k].Taking? && events[k].key == key)
    ensures key in states[n].policies ==>
      !states[n].policies[key].value.taken && states[n].policies[key].value.policy == events[a].policy
    decreases n
  {
    assert StepAt(events, states, n - 1);
    if a < n - 1 {
      UntakenUntilTaken(events, states, a, n - 1, key);
      UntakenStep(events, states, n - 1, key, events[a].policy);
    }
  }

  /** The first take of a live entry gets the armed policy; only AutoTTL is still to be resolved. */
  lemma {:induction false} FirstTakeSucceeds(events: seq<Event>, states: seq<State>, a: nat, n: nat, key: Key)
    requires Run(events, states) && LastArmed(events, a, n, key) && Alive(events, states, a, n, key)
    requires n < |events| && events[n].Taking? && events[n].key == key && events[n].at < events[a].at + 15000
    requires forall k :: a < k < n ==> !(events[k].Taking? && events[k].key == key)
    ensures events[n].result.Some?
    ensures events[a].policy.mode != FakeAutoTtl ==> events[n].result == Some(events[a].policy)
    ensures events[n].result == Some(Resolved(events[a].policy, states[n].hops, key, events[n].at))
  {
    ArmedLives(events, states, a, n, key);
    UntakenUntilTaken(events, states, a, n, key);
    assert StepAt(events, states, n);
  }

  /** After a take for a segment, a take of the live entry succeeds if and only if it is for the same segment. */
  lemma {:induction false} LaterTakeExactly(
    events: seq<Event>, states: seq<State>, a: nat, i: nat, n: nat, key: Key)
    requires Run(events, states) && LastArmed(events, a, n, key) && Alive(events, states, a, n, key)
    requires a < i < n < |events| && TakesFor(events[i], key)
    requires events[n].Taking? && events[n].key == key && events[n].at < events[a].at + 15000
    ensures events[n].result == if events[n].sequence == events[i].sequence then events[i].result else None
  {
    ArmedLives(events, states, a, n, key);
    PinnedUntilArmed(events, states, i, n);
    assert StepAt(events, states, n);
  }

  // ---- AutoTTL ----

  /** A packet that left with one of the usual time-to-live values and arrived with `received` made `hops` hops. */
  predicate Travelled(received: nat, hops: nat) {
    || received + hops == 64
    || (received + hops == 128 && received > 64)
    || (received + hops == 255 && received > 128)
  }

  /** Event `i` is the last usable sample of the key's path before `n`. */
  ghost predicate LastSample(events: seq<Event>, i: nat, n: nat, key: Key, hops: nat)
    requires n <= |events|
  {
    && i < n && Samples(events[i], key, hops)
    && forall k :: i < k < n ==> !events[k].Clearing? && !SomeSample(events[k], key)
  }

  predicate Samples(e: Event, key: Key, hops: nat) {
    e.Hop? && e.key == key && key.port != 0 && 0 < e.receivedTtl < 256 && Travelled(e.receivedTtl, hops) && hops > 0
  }

  ghost predicate SomeSample(e: Event, key: Key) {
    exists hops: nat :: Samples(e, key, hops)
  }

  /** Another path's sample finds the table full and gives up this one. */
  ghost predicate SampleLost(events: seq<Event>, states: seq<State>, k: nat, key: Key)
    requires k < |events| && |states| == |events| + 1
  {
    events[k].Hop? && events[k].key != key && GivenUp(states[k].hops, states[k + 1].hops, key, events[k].key)
  }

  ghost predicate SampleKept(events: seq<Event>, states: seq<State>, i: nat, n: nat, key: Key)
    requires n <= |events| && |states| == |events| + 1
  {
    forall k :: i < k < n ==> !SampleLost(events, states, k, key)
  }

  lemma {:induction false} SampleExactly(e: Event, key: Key)
    requires e.Hop? && e.key == key
    ensures HopCounts(e.receivedTtl, key.port) <==> SomeSample(e, key)
    ensures HopCounts(e.receivedTtl, key.port) ==> Samples(e, key, InferPathHops(e.receivedTtl))
    ensures forall hops: nat :: Samples(e, key, hops) ==> e.receivedTtl < 256 && hops == InferPathHops(e.receivedTtl)
  {
    if HopCounts(e.receivedTtl, key.port) { assert Samples(e, key, InferPathHops(e.receivedTtl)); }
  }

  lemma {:induction false} SampleStays(
    events: seq<Event>, states: seq<State>, i: nat, n: nat, key: Key, hops: nat, now: nat)
    requires Run(events, states) && n <= |events| && LastSample(events, i, n, key, hops)
    requires SampleKept(events, states, i, n, key) && now < events[i].at + 15000
    requires forall k :: i < k < n ==> TimeOf(events[k]) <= now
    ensures key in states[n].hops && states[n].hops[key] == Timed(hops, events[i].at + 15000)
    decreases n
  {
    assert StepAt(events, states, n - 1);
    if n - 1 == i {
      SampleExactly(events[i], key);
    } else {
      SampleStays(events, states, i, n - 1, key, hops, now);
      if events[n - 1].Hop? && events[n - 1].key == key { SampleExactly(events[n - 1], key); }
      assert !SampleLost(events, states, n - 1, key);
    }
  }

  lemma {:induction false} HopHasSample(events: seq<Event>, states: seq<State>, n: nat, key: Key) returns (i: nat)
    requires Run(events, states) && n <= |events| && key in states[n].hops
    ensures LastSample(events, i, n, key, states[n].hops[key].value) && SampleKept(events, states, i, n, key)
    ensures states[n].hops[key].expiresAt == events[i].at + 15000
  {
    assert n > 0;
    var e := events[n - 1];
    assert StepAt(events, states, n - 1);
    if e.Hop? && e.key == key { SampleExactly(e, key); }
    if e.Hop? && e.key == key && HopCounts(e.receivedTtl, key.port) {
      i := n - 1;
    } else {
      i := HopHasSample(events, states, n - 1, key);
    }
  }

  /** A sample of at least three hops, less than fifteen seconds old and not given up. */
  ghost predicate UsableSample(
    events: seq<Event>, states: seq<State>, i: nat, n: nat, key: Key, hops: nat, now: nat)
    requires n <= |events| && |states| == |events| + 1
  {
    && LastSample(events, i, n, key, hops) && SampleKept(events, states, i, n, key)
    && now < events[i].at + 15000 && hops >= 3
  }

  /** What the first take makes of an AutoTTL policy. */
  lemma {:induction false} AutoTtlExactly(
    events: seq<Event>, states: seq<State>, n: nat, key: Key, armed: Policy, now: nat)
    requires Run(events, states) && n <= |events| && armed.mode == FakeAutoTtl
    requires forall k :: 0 <= k < n ==> TimeOf(events[k]) <= now
    ensures forall i: nat, hops: nat :: UsableSample(events, states, i, n, key, hops, now) ==>
      Resolved(armed, states[n].hops, key, now) == armed.(fakeTtl := hops - 1)
    ensures (forall i: nat, hops: nat :: !UsableSample(events, states, i, n, key, hops, now)) ==>
      Resolved(armed, states[n].hops, key, now) == armed.(mode := FakeBadSequence, fakeSequenceDelta := -10000)
  {
    forall i: nat, hops: nat | UsableSample(events, states, i, n, key, hops, now)
      ensures Resolved(armed, states[n].hops, key, now) == armed.(fakeTtl := hops - 1)
    {
      SampleStays(events, states, i, n, key, hops, now);
    }
    if key in states[n].hops && states[n].hops[key].expiresAt > now && states[n].hops[key].value >= 3 {
      var i := HopHasSample(events, states, n, key);
      assert UsableSample(events, states, i, n, key, states[n].hops[key].value, now);
    }
  }

  // ---- applied ----

  lemma {:induction false} AppliedStays(
    events: seq<Event>, states: seq<State>, i: nat, n: nat, key: Key, deadline: nat)
    requires Run(events, states) && i <= n <= |events| && LivesUntil(states[i], key, deadline)
    requires states[i].policies[key].value.applied
    requires forall k :: i <= k < n ==> Leaves(events, states, k, key, deadline) && !Arms(events[k], key)
    ensures LivesUntil(states[n], key, deadline) && states[n].policies[key].value.applied
    decreases n
  {
    if i < n {
      AppliedStays(events, states, i, n - 1, key, deadline);
      LeavesStep(events, states, n - 1, key, deadline);
      assert StepAt(events, states, n - 1);
    }
  }

  /** A report of a live entry is answered for sixty seconds, unless the key is armed again or its entry removed. */
  lemma {:induction false} ReportIsTold(events: seq<Event>, states: seq<State>, i: nat, n: nat, key: Key)
    requires Run(events, states) && i < n < |events| && ReportsFor(events[i], key) && key in states[i].policies
    requires forall k :: i < k < n ==> Leaves(events, states, k, key, events[i].at + 60000) && !Arms(events[k], key)
    requires events[n].Asking? && events[n].key == key && events[n].at < events[i].at + 60000
    ensures events[n].answer
  {
    assert StepAt(events, states, i);
    AppliedStays(events, states, i + 1, n, key, events[i].at + 60000);
    assert StepAt(events, states, n);
  }
}
