/**
  What the store must come to know, over every run: the other side of what it may know.

  Main results: a differential for a key without a pending strike sets one; the next differential for the key,
  whatever profile it names, is learned if and only if it comes at least sixty seconds and less than six hours
  after that strike, as long as nothing cancelled, used or crowded out the nomination; a winner survives one
  recorded failure and goes with the second, and a success in between starts the count again; a host counts as
  recently healthy exactly for fifteen minutes after its baseline got through; and a winner is put to the test
  again exactly when its last proof is half an hour old and no test of it is under way.
 */
module LearningProgress {
  import opened Collections
  import opened Diagnosis
  import opened Learning
  import opened LearningStore
  import opened Text
  import Profiles = RecordSplits

  // ---- two differentials make a winner ----

  /** The verdict speaks for interference, and does not re-prove the winner the key already has. */
  predicate Differential(s: State, e: Event, key: string) {
    && e.Remembered? && e.key == key && e.kind == SniInterferenceLikely && e.profile != "none"
    && !(key in s.entries && s.entries[key].winner.expiresAt > e.now && s.entries[key].winner.profile == e.profile)
  }

  /** A strike of time `at` is pending for the key. */
  predicate Pending(s: State, key: string, at: nat) {
    && key in s.candidates && at > 0
    && s.candidates[key].firstStrikeAt == at && s.candidates[key].expiresAt == at + 21600
  }

  /** No strike is pending for the key at `mono`: none was noted, or it is six hours old. */
  predicate NonePending(s: State, key: string, mono: nat) {
    key !in s.candidates || s.candidates[key].firstStrikeAt == 0 || s.candidates[key].firstStrikeAt + 21600 <= mono
  }

  /** A first differential is noted, and nothing is learned from it. */
  lemma {:induction false} FirstStrikeIsNoted(
    events: seq<Event>, states: seq<State>, dirty: seq<bool>, j: nat, key: string)
    requires Run(events, states, dirty) && j < |events| && Differential(states[j], events[j], key)
    requires NonePending(states[j], key, events[j].mono)
    ensures events[j].outcome == Nominated && Pending(states[j + 1], key, events[j].mono)
    ensures states[j + 1].entries == states[j].entries
  {
    var s, e := states[j], events[j];
    RunKeepsBounds(events, states, dirty, j);
    assert StepAt(events, states, dirty, j);
    if key in s.candidates && s.candidates[key].firstStrikeAt != 0 {
      var source := StrikeHasSource(events, states, dirty, j, key);
    }
    if !HasCandidate(s, key, e.now, e.mono) {
      NominateKeepsBounds(s, states[j + 1], key, e.profile, e.now, e.mono);
    }
  }

  // ---- full tables ----

  /** What making room takes away: only from a full table, and only what is dead or of least rank. */
  lemma {:induction false} RoomLosesOnlyLeast<V>(
    m: map<string, V>, m': map<string, V>, live: map<string, V>, rank: V -> nat, capacity: nat, key: string)
    requires Room(m, m', live, rank, capacity) && Within(live, m) && key in m && key !in m'
    ensures |m| >= capacity
    ensures key in live ==> forall j :: j in m' ==> j in m && rank(m[key]) <= rank(m[j])
  {
  }

  /** No nomination but that of `but` that is left after `k` has an older strike than the key had. */
  predicate StalestStrike(s: State, s': State, key: string, but: string) {
    && key in s.candidates
    && forall j :: j in s'.candidates && j != but ==> s.candidates[key].firstStrikeAt <= s'.candidates[j].firstStrikeAt
  }

  /** The verdict on another key finds 1000 nominations and gives up this one: it has the oldest strike. */
  ghost predicate CrowdsOut(events: seq<Event>, states: seq<State>, k: nat, key: string)
    requires k < |events| && |states| == |events| + 1
  {
    && events[k].Remembered? && events[k].key != key && key in states[k].candidates && key !in states[k + 1].candidates
    && |states[k].candidates| >= 1000 && StalestStrike(states[k], states[k + 1], key, events[k].key)
  }

  lemma {:induction false} NominationLost(s: State, e: Event, s': State, dirty: bool, key: string)
    requires Bounded(s) && e.Remembered? && e.key != key && Step(s, e, s', dirty)
    requires key in s.candidates && key !in s'.candidates && CandidateLive(s.candidates[key], e.now, e.mono)
    ensures |s.candidates| >= 1000 && StalestStrike(s, s', key, e.key)
  {
    RememberLocal(s, s', e.key, e.profile, e.kind, e.confidence, e.now, e.mono, e.outcome, dirty);
    assert Nominate(s, s', e.key, e.profile, e.now, e.mono);
    var room :| NominateIn(room, s, s', e.key, e.profile, e.now, e.mono);
    var base := Without(s.candidates, e.key);
    RemoveSize(s.candidates, e.key);
    RoomLosesOnlyLeast(base, room, LiveCandidates(base, e.now, e.mono), StruckAt, MAX_CANDIDATES, key);
  }

  /** Nothing that event `k` does touches the pending strike of time `at`. */
  ghost predicate LeavesPending(events: seq<Event>, states: seq<State>, k: nat, key: string, at: nat)
    requires k < |events| && |states| == |events| + 1
  {
    && !Cancels(events[k], key) && !Learns(events[k], key) && !CrowdsOut(events, states, k, key)
    && (events[k].Remembered? ==> events[k].mono < at + 21600)
  }

  lemma {:induction false} PendingStep(
    events: seq<Event>, states: seq<State>, dirty: seq<bool>, k: nat, key: string, at: nat)
    requires Run(events, states, dirty) && k < |events| && Pending(states[k], key, at)
    requires LeavesPending(events, states, k, key, at)
    ensures Pending(states[k + 1], key, at)
  {
    var s, e, s' := states[k], events[k], states[k + 1];
    RunKeepsBounds(events, states, dirty, k);
    assert StepAt(events, states, dirty, k);
    if e.Remembered? {
      RememberLocal(s, s', e.key, e.profile, e.kind, e.confidence, e.now, e.mono, e.outcome, dirty[k]);
      if e.key != key && key !in s'.candidates { NominationLost(s, e, s', dirty[k], key); }
    } else if e.SeenHealthy? {
      HealthyKeepsBounds(s, s', e.key, e.mono, dirty[k]);
    }
  }

  lemma {:induction false} PendingStays(
    events: seq<Event>, states: seq<State>, dirty: seq<bool>, j: nat, n: nat, key: string, at: nat)
    requires Run(events, states, dirty) && j <= n <= |events| && Pending(states[j], key, at)
    requires forall k :: j <= k < n ==> LeavesPending(events, states, k, key, at)
    ensures Pending(states[n], key, at)
    decreases n
  {
    if j < n {
      PendingStays(events, states, dirty, j, n - 1, key, at);
      PendingStep(events, states, dirty, n - 1, key, at);
    }
  }

  /** The winner that a differential makes: its profile, proved now, for a week. */
  predicate FreshWinner(w: Winner, e: Event)
    requires e.Remembered?
  {
    && w.profile == e.profile && w.kind == SniInterferenceLikely && w.verifiedAt == e.now
    && w.expiresAt == e.now + 604800 && w.failures == 0
    && w.confidence == if e.confidence > 100 then 100 else e.confidence
  }

  /** With a strike pending, a differential is learned from the sixtieth second on, and only noted before. */
  lemma {:induction false} PendingDecides(
    events: seq<Event>, states: seq<State>, dirty: seq<bool>, i: nat, key: string, at: nat)
    requires Run(events, states, dirty) && i < |events| && Differential(states[i], events[i], key)
    requires Pending(states[i], key, at) && events[i].mono < at + 21600
    ensures events[i].mono >= at + 60 ==>
      && events[i].outcome == Learned && key in states[i + 1].entries
      && FreshWinner(states[i + 1].entries[key].winner, events[i]) && key !in states[i + 1].candidates
    ensures events[i].mono < at + 60 ==>
      events[i].outcome == Nominated && states[i + 1].entries == states[i].entries && Pending(states[i + 1], key, at)
  {
    var e := events[i];
    RunKeepsBounds(events, states, dirty, i);
    assert StepAt(events, states, dirty, i);
    if e.mono >= at + 60 {
      LearnKeepsBounds(
        states[i], states[i + 1], key, NewWinner(e.profile, SniInterferenceLikely, e.confidence, e.now), e.now);
    }
  }

  /**
    The second differential: after a first one at `s`, with the nomination left alone since, a differential
    for the key at `t`, whatever profile it names, is learned exactly when `s + 60 <= t`, for `t` below
    `s + 6 h`.
   */
  lemma {:induction false} SecondStrikeIsLearned(
    events: seq<Event>, states: seq<State>, dirty: seq<bool>, j: nat, i: nat, key: string)
    requires Run(events, states, dirty) && j < i < |events|
    requires Differential(states[j], events[j], key) && NonePending(states[j], key, events[j].mono)
    requires forall k :: j < k < i ==> LeavesPending(events, states, k, key, events[j].mono)
    requires Differential(states[i], events[i], key) && events[i].mono < events[j].mono + 21600
    ensures events[i].outcome == Learned <==> events[i].mono >= events[j].mono + 60
    ensures events[i].outcome == Learned ==>
      key in states[i + 1].entries && FreshWinner(states[i + 1].entries[key].winner, events[i])
    ensures events[i].outcome != Learned ==>
      events[i].outcome == Nominated && states[i + 1].entries == states[i].entries
  {
    FirstStrikeIsNoted(events, states, dirty, j, key);
    PendingStays(events, states, dirty, j + 1, i, key, events[j].mono);
    PendingDecides(events, states, dirty, i, key, events[j].mono);
  }

  // ---- failures in a row ----

  predicate HasWinner(s: State, key: string, profile: string) {
    key in s.entries && s.entries[key].winner.profile == profile
  }

  /** One failure of a winner without any keeps it, at twenty points less, and with the proof it had. */
  lemma {:induction false} OneFailureKeeps(
    events: seq<Event>, states: seq<State>, dirty: seq<bool>, k: nat, key: string, profile: string)
    requires Run(events, states, dirty) && k < |events| && events[k] == FailureRecorded(key, profile)
    requires HasWinner(states[k], key, profile) && states[k].entries[key].winner.failures == 0
    ensures HasWinner(states[k + 1], key, profile)
    ensures var w, w' := states[k].entries[key].winner, states[k + 1].entries[key].winner;
      && w'.failures == 1 && SameProof(w, w')
      && (if w.confidence >= 20 then w'.confidence + 20 == w.confidence else w'.confidence == 0)
  {
    assert StepAt(events, states, dirty, k);
  }

  /** The winner of the key got through, was proved again, or is another one from here on. */
  predicate StartsOver(e: Event, key: string) {
    || e.Loaded?
    || (e.Remembered? && e.key == key
        && (e.outcome == Learned || e.outcome == Refreshed || e.outcome == Reverified))
  }

  /** The key has no winner, or this one with so many failures. */
  predicate FailedSo(s: State, key: string, profile: string, failures: nat) {
    key in s.entries ==> s.entries[key].winner.profile == profile && s.entries[key].winner.failures == failures
  }

  lemma {:induction false} FailuresStay(
    events: seq<Event>, states: seq<State>, dirty: seq<bool>, k: nat, key: string, profile: string, failures: nat)
    requires Run(events, states, dirty) && k < |events| && FailedSo(states[k], key, profile, failures)
    requires !StartsOver(events[k], key) && events[k] != FailureRecorded(key, profile)
    ensures FailedSo(states[k + 1], key, profile, failures)
  {
    var s, e, s' := states[k], events[k], states[k + 1];
    RunKeepsBounds(events, states, dirty, k);
    assert StepAt(events, states, dirty, k);
    if e.Remembered? {
      RememberLocal(s, s', e.key, e.profile, e.kind, e.confidence, e.now, e.mono, e.outcome, dirty[k]);
      if e.key == key && FirstStrike(s, e) { NominateKeepsBounds(s, s', key, e.profile, e.now, e.mono); }
    } else if e.SeenHealthy? {
      HealthyKeepsBounds(s, s', e.key, e.mono, dirty[k]);
    }
  }

  lemma {:induction false} FailuresLast(
    events: seq<Event>, states: seq<State>, dirty: seq<bool>, i: nat, n: nat, key: string, profile: string,
    failures: nat)
    requires Run(events, states, dirty) && i <= n <= |events| && FailedSo(states[i], key, profile, failures)
    requires forall k :: i <= k < n ==> !StartsOver(events[k], key) && events[k] != FailureRecorded(key, profile)
    ensures FailedSo(states[n], key, profile, failures)
    decreases n
  {
    if i < n {
      FailuresLast(events, states, dirty, i, n - 1, key, profile, failures);
      FailuresStay(events, states, dirty, n - 1, key, profile, failures);
    }
  }

  /** Two failures in a row, with no success between them, leave the key without its winner. */
  lemma {:induction false} SecondFailureEvicts(
    events: seq<Event>, states: seq<State>, dirty: seq<bool>, i: nat, j: nat, key: string, profile: string)
    requires Run(events, states, dirty) && i < j < |events|
    requires events[i] == FailureRecorded(key, profile) && events[j] == FailureRecorded(key, profile)
    requires HasWinner(states[i], key, profile) && states[i].entries[key].winner.failures < 0xFFFF_FFFF
    requires forall k :: i < k < j ==> !StartsOver(events[k], key) && events[k] != FailureRecorded(key, profile)
    ensures key !in states[j + 1].entries
  {
    assert StepAt(events, states, dirty, i);
    assert FailedSo(states[i + 1], key, profile, 1);
    FailuresLast(events, states, dirty, i + 1, j, key, profile, 1);
    assert StepAt(events, states, dirty, j);
  }

  /** A cache hit of a live winner starts its count again. */
  lemma {:induction false} CacheHitStartsOver(
    events: seq<Event>, states: seq<State>, dirty: seq<bool>, k: nat, key: string)
    requires Run(events, states, dirty) && k < |events| && events[k].Remembered? && events[k].key == key
    requires events[k].kind == LearnedProfile && events[k].profile != "none"
    requires HasWinner(states[k], key, events[k].profile) && states[k].entries[key].winner.expiresAt > events[k].now
    ensures events[k].outcome == Refreshed && HasWinner(states[k + 1], key, events[k].profile)
    ensures states[k + 1].entries[key].winner == states[k].entries[key].winner.(failures := 0)
  {
    assert StepAt(events, states, dirty, k);
  }

  /** After a success, the first failure leaves the winner where it is, if it is still there. */
  lemma {:induction false} FailureAfterSuccessKeeps(
    events: seq<Event>, states: seq<State>, dirty: seq<bool>, i: nat, j: nat, key: string, profile: string)
    requires Run(events, states, dirty) && i <= j < |events| && HasWinner(states[i], key, profile)
    requires states[i].entries[key].winner.failures == 0 && events[j] == FailureRecorded(key, profile)
    requires forall k :: i <= k < j ==> !StartsOver(events[k], key) && events[k] != FailureRecorded(key, profile)
    ensures key in states[j].entries ==> HasWinner(states[j + 1], key, profile)
  {
    FailuresLast(events, states, dirty, i, j, key, profile, 0);
    if key in states[j].entries { OneFailureKeeps(events, states, dirty, j, key, profile); }
  }

  /** A live winner that proves itself against a fresh baseline is as good as new. */
  lemma {:induction false} ReproofRenews(
    events: seq<Event>, states: seq<State>, dirty: seq<bool>, k: nat, key: string)
    requires Run(events, states, dirty) && k < |events| && events[k].Remembered? && events[k].key == key
    requires events[k].kind == SniInterferenceLikely && events[k].profile != "none"
    requires HasWinner(states[k], key, events[k].profile) && states[k].entries[key].winner.expiresAt > events[k].now
    ensures events[k].outcome == Reverified && HasWinner(states[k + 1], key, events[k].profile)
    ensures var w, w' := states[k].entries[key].winner, states[k + 1].entries[key].winner;
      && w'.verifiedAt == events[k].now && w'.expiresAt == events[k].now + 604800 && w'.failures == 0
      && w'.confidence == (if events[k].confidence <= w.confidence then w.confidence
                           else if events[k].confidence > 100 then 100 else events[k].confidence)
      && states[k + 1].entries[key].reverifyStartedAt == 0
  {
    assert StepAt(events, states, dirty, k);
  }

  // ---- recently healthy ----

  /** Event `i` is the last before `n` that saw the key's baseline get through, and nothing was cleared since. */
  predicate LastHealthy(events: seq<Event>, i: nat, n: nat, key: string)
    requires n <= |events|
  {
    && i < n && events[i].SeenHealthy? && events[i].key == key
    && forall k :: i < k < n ==> !events[k].Cleared? && !(events[k].SeenHealthy? && events[k].key == key)
  }

  /** A baseline of another key finds 4096 healthy hosts and gives up this key. */
  ghost predicate HealthLost(events: seq<Event>, states: seq<State>, k: nat, key: string)
    requires k < |events| && |states| == |events| + 1
  {
    && events[k].SeenHealthy? && key in states[k].healthyAt && key !in states[k + 1].healthyAt
    && |states[k].healthyAt| >= 4096
  }

  lemma {:induction false} HealthStep(
    events: seq<Event>, states: seq<State>, dirty: seq<bool>, k: nat, key: string)
    requires Run(events, states, dirty) && k < |events|
    requires !events[k].Cleared? && !(events[k].SeenHealthy? && events[k].key == key)
    ensures key in states[k + 1].healthyAt ==>
      key in states[k].healthyAt && states[k + 1].healthyAt[key] == states[k].healthyAt[key]
    ensures key in states[k].healthyAt && key !in states[k + 1].healthyAt ==> HealthLost(events, states, k, key)
  {
    var s, e, s' := states[k], events[k], states[k + 1];
    RunKeepsBounds(events, states, dirty, k);
    assert StepAt(events, states, dirty, k);
    if e.SeenHealthy? {
      HealthyWithin(s, s', e.key, e.mono, dirty[k]);
    } else if e.Remembered? {
      VerdictKeepsHealth(s, s', e, dirty[k]);
    }
  }

  lemma {:induction false} HealthyWithin(s: State, s': State, key: string, mono: nat, dirty: bool)
    requires Bounded(s) && NoteHealthy(s, s', key, mono, dirty)
    ensures WithinBut(s'.healthyAt, s.healthyAt, key)
    ensures forall k :: k in s.healthyAt && k !in s'.healthyAt ==> |s.healthyAt| >= 4096
  {
    var room :| HealthyIn(room, s, s', key, mono);
    if key !in s.healthyAt { RoomIsWithin(s.healthyAt, room, LiveHealthy(s.healthyAt, mono), NoRank, MAX_HEALTHY); }
  }

  lemma {:induction false} VerdictKeepsHealth(s: State, s': State, e: Event, dirty: bool)
    requires e.Remembered? && Step(s, e, s', dirty)
    ensures s'.healthyAt == s.healthyAt
  {
  }

  lemma {:induction false} HealthHasSource(
    events: seq<Event>, states: seq<State>, dirty: seq<bool>, n: nat, key: string) returns (i: nat)
    requires Run(events, states, dirty) && n <= |events| && key in states[n].healthyAt
    ensures LastHealthy(events, i, n, key) && states[n].healthyAt[key] == events[i].mono
    ensures forall k :: i < k < n ==> !HealthLost(events, states, k, key)
  {
    assert n > 0;
    var e := events[n - 1];
    RunKeepsBounds(events, states, dirty, n - 1);
    assert StepAt(events, states, dirty, n - 1);
    if e.SeenHealthy? && e.key == key {
      HealthyKeepsBounds(states[n - 1], states[n], key, e.mono, dirty[n - 1]);
      i := n - 1;
    } else {
      HealthStep(events, states, dirty, n - 1, key);
      i := HealthHasSource(events, states, dirty, n - 1, key);
    }
  }

  lemma {:induction false} HealthStays(
    events: seq<Event>, states: seq<State>, dirty: seq<bool>, i: nat, n: nat, key: string)
    requires Run(events, states, dirty) && n <= |events| && LastHealthy(events, i, n, key)
    requires forall k :: i < k < n ==> !HealthLost(events, states, k, key)
    ensures key in states[n].healthyAt && states[n].healthyAt[key] == events[i].mono
    decreases n
  {
    if n - 1 == i {
      RunKeepsBounds(events, states, dirty, i);
      assert StepAt(events, states, dirty, i);
      HealthyKeepsBounds(states[i], states[n], key, events[i].mono, dirty[i]);
    } else {
      HealthStays(events, states, dirty, i, n - 1, key);
      HealthStep(events, states, dirty, n - 1, key);
    }
  }

  /** A host is recently healthy exactly for fifteen minutes after its baseline got through. */
  lemma {:induction false} RecentlyHealthyExactly(
    events: seq<Event>, states: seq<State>, dirty: seq<bool>, n: nat, key: string, mono: nat)
    requires Run(events, states, dirty) && n <= |events|
    ensures RecentlyHealthy(states[n], key, mono) <==>
      exists i: nat :: LastHealthy(events, i, n, key) && events[i].mono <= mono < events[i].mono + 900
        && forall k :: i < k < n ==> !HealthLost(events, states, k, key)
  {
    if RecentlyHealthy(states[n], key, mono) {
      var i := HealthHasSource(events, states, dirty, n, key);
    }
    if i: nat :| LastHealthy(events, i, n, key) && events[i].mono <= mono < events[i].mono + 900
                 && forall k :: i < k < n ==> !HealthLost(events, states, k, key) {
      HealthStays(events, states, dirty, i, n, key);
    }
  }

  // ---- what is tried first ----

  /** The proof is half an hour old, or lies more than five minutes ahead of the clock. */
  predicate Overdue(w: Winner, now: nat) {
    w.verifiedAt + 1800 <= now || w.verifiedAt > now + 300
  }

  /** Another connection is testing the winner since less than fifteen seconds. */
  predicate UnderTest(e: Entry, mono: nat) {
    e.reverifyStartedAt != 0 && mono < e.reverifyStartedAt + 15
  }

  /** The remembered profile leads, behind the untouched hello exactly when it is put to the test. */
  lemma {:induction false} WinnerLeads(s: State, key: string, hasSni: bool, now: nat, mono: nat)
    requires Proper(s) && key in s.entries && s.entries[key].winner.expiresAt > now
    ensures var e, order := s.entries[key], Order(Profiles.PROFILES, LeadOf(s, key, now, mono), hasSni);
      if Overdue(e.winner, now) && !UnderTest(e, mono)
      then |order| >= 2 && order[0] == "none" && order[1] == e.winner.profile
      else |order| >= 1 && order[0] == e.winner.profile
  {
  }

  /** The connection that starts a test marks it, and no other connection changes the store. */
  lemma {:induction false} TestIsMarked(s: State, key: string, now: nat, mono: nat)
    requires key in s.entries && s.entries[key].winner.expiresAt > now
    ensures var e, s' := s.entries[key], AfterProbe(s, key, now, mono);
      if Overdue(e.winner, now) && !UnderTest(e, mono)
      then s' == s.(entries := s.entries[key := e.(reverifyStartedAt := mono)]) else s' == s
  {
  }

  /** Without a live winner, a profile with a live nomination is tried behind the untouched hello. */
  lemma {:induction false} NominationLeads(s: State, key: string, hasSni: bool, now: nat, mono: nat)
    requires Proper(s) && !(key in s.entries && s.entries[key].winner.expiresAt > now) && key in s.candidates
    requires var c := s.candidates[key];
      if c.firstStrikeAt == 0 then c.persistUntil > now else c.expiresAt > mono
    ensures var order := Order(Profiles.PROFILES, LeadOf(s, key, now, mono), hasSni);
      |order| >= 2 && order[0] == "none" && order[1] == s.candidates[key].profile
  {
  }

  /** These names stand in the table in this order. */
  ghost predicate InTableOrder(table: seq<Profiles.Profile>, names: seq<string>, places: seq<nat>, from: nat) {
    && |places| == |names|
    && (forall p :: 0 <= p < |places| ==> from <= places[p] < |table| && table[places[p]].name == names[p])
    && (forall p, q :: 0 <= p < q < |places| ==> places[p] < places[q])
  }

  lemma {:induction false} RestInTableOrder(table: seq<Profiles.Profile>, lead: Lead, hasSni: bool, i: nat)
    returns (places: seq<nat>)
    requires i <= |table|
    ensures InTableOrder(table, Rest(table, lead, hasSni, i), places, i)
    decreases |table| - i
  {
    if i == |table| {
      places := [];
    } else {
      places := RestInTableOrder(table, lead, hasSni, i + 1);
      if Listed(table[i], lead, hasSni) { places := [i] + places; }
    }
  }

  /** Behind the head of the order the other profiles come in the order of the table. */
  lemma {:induction false} OthersInTableOrder(lead: Lead, hasSni: bool) returns (head: nat, places: seq<nat>)
    ensures var order := Order(Profiles.PROFILES, lead, hasSni);
      && head == (if lead.NoLead? then 0 else if lead.WinnerLead? && !lead.reverify then 1 else 2)
      && head <= |order| && InTableOrder(Profiles.PROFILES, order[head..], places, 0)
  {
    head := |Head(lead)|;
    places := RestInTableOrder(Profiles.PROFILES, lead, hasSni, 0);
    assert Order(Profiles.PROFILES, lead, hasSni)[head..] == Rest(Profiles.PROFILES, lead, hasSni, 0);
  }

  // ---- what a connection reports ----

  /** The baseline failed in this connection, and neither a recent success nor a blink of the path explains it. */
  ghost predicate Accuses(evidence: seq<Attempt>, context: Context, s: nat)
    requires s < |evidence|
  {
    !context.baselineRecentlyHealthy
    && exists b: nat :: BaselineFailed(evidence, b) && !Blinked(evidence, context, s, b)
  }

  /** The baseline failed, and one of them does. */
  ghost predicate Excused(evidence: seq<Attempt>, context: Context, s: nat)
    requires s < |evidence|
  {
    exists b: nat :: BaselineFailed(evidence, b)
      && (context.baselineRecentlyHealthy || Blinked(evidence, context, s, b))
  }

  /** The untouched hello got through: the host is healthy, and a remembered profile is given up. */
  lemma {:induction false} BaselineReports(
    learning: bool, evidence: seq<Attempt>, context: Context, s: nat, applied: bool, rememberedFailed: bool)
    requires WonAt(evidence, s) && evidence[s].profile == "none"
    ensures var calls := Reports(learning, evidence, context, evidence[s].profile, applied, rememberedFailed);
      && |calls| == (if !learning then 0 else if context.remembered == "" then 1 else 2)
      && (|calls| > 0 ==> calls[0] == NoteHealthyCall)
      && (|calls| > 1 ==> calls[1].RememberCall? && calls[1].profile == "none")
  {
  }

  /**
    A profile got through: nothing is reported when learning is off, when a packet profile was not applied or
    when the failed baseline is excused; else the remembered profile's failure, if it failed, and the profile,
    as a differential exactly when the baseline failed.
   */
  lemma {:induction false} BypassReports(
    learning: bool, evidence: seq<Attempt>, context: Context, s: nat, applied: bool, rememberedFailed: bool)
    requires WonAt(evidence, s) && evidence[s].profile != "none"
    ensures var calls := Reports(learning, evidence, context, evidence[s].profile, applied, rememberedFailed);
      if !learning || (IsPacketProfile(evidence[s].profile) && !applied) || Excused(evidence, context, s)
      then calls == []
      else
        && |calls| == (if rememberedFailed then 2 else 1)
        && (rememberedFailed ==> calls[0] == FailureCall(context.remembered))
        && var last := calls[|calls| - 1];
        && last.RememberCall? && last.profile == evidence[s].profile
        && (last.kind == SniInterferenceLikely <==> Accuses(evidence, context, s))
        && (last.kind == LearnedProfile <==> !exists b: nat :: BaselineFailed(evidence, b))
  {
    BypassVerdicts(evidence, context, s);
    FailedBaselineIsOne(evidence);
  }

  lemma {:induction false} FailedBaselineIsOne(evidence: seq<Attempt>)
    ensures forall b: nat, c: nat :: BaselineFailed(evidence, b) && BaselineFailed(evidence, c) ==> b == c
  {
  }

  // ---- keys ----

  /** A trailing dot makes no difference to the key. */
  lemma {:induction false} KeyIgnoresDot(network: string, host: string)
    ensures ScopeKey(network, host + ".") == ScopeKey(network, host)
  {
    assert (host + ".")[..|host|] == host;
  }

  predicate SameLetters(a: string, b: string) {
    |a| == |b| && forall i :: 0 <= i < |a| ==> LowerChar(a[i]) == LowerChar(b[i])
  }

  lemma {:induction false} DotsGoAlike(a: string, b: string)
    requires SameLetters(a, b)
    ensures SameLetters(WithoutTrailingDots(a), WithoutTrailingDots(b))
    decreases |a|
  {
    if |a| > 0 {
      var last := |a| - 1;
      assert LowerChar(a[last]) == LowerChar(b[last]);
      if a[last] == '.' { DotsGoAlike(a[..last], b[..last]); }
    }
  }

  /** Nor does the case of its letters. */
  lemma {:induction false} KeyIgnoresCase(network: string, a: string, b: string)
    requires SameLetters(a, b)
    ensures ScopeKey(network, a) == ScopeKey(network, b)
  {
    DotsGoAlike(a, b);
    assert NormalizeHost(a) == NormalizeHost(b);
  }

  /** On one network, hosts that are not the same have keys that are not. */
  lemma {:induction false} KeyTellsHosts(network: string, a: string, b: string)
    requires ScopeKey(network, a) == ScopeKey(network, b)
    ensures SameLetters(WithoutTrailingDots(a), WithoutTrailingDots(b))
  {
    var front := (if network == "" then DEFAULT_NETWORK else network) + "|";
    var x, y := NormalizeHost(a), NormalizeHost(b);
    assert (front + x)[|front|..] == x && (front + y)[|front|..] == y;
    var p, q := WithoutTrailingDots(a), WithoutTrailingDots(b);
    forall i | 0 <= i < |p| ensures LowerChar(p[i]) == LowerChar(q[i]) { assert x[i] == y[i]; }
  }
}
