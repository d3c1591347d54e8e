/**
  The store of learned profiles: which profile got a network and host through, what is only suspected,
  and which hosts were seen healthy.

  Main results, over every run of store operations by any number of threads: a winner learned from a
  differential was preceded by another differential for the same network and host, at least 60 seconds
  and less than six hours before on the monotonic clock, with no healthy baseline, no forgetting, no
  clearing, no reload and no success of the untouched hello for that key in between; a cache hit or a
  hiccup never creates a winner and never renews its proof; every stamp of verification is the time of
  a differential; and whenever persisted winners change, the same operation takes a snapshot.
 */
module Learning {
  import opened Collections
  import opened Text
  import opened Diagnosis
  import Profiles = RecordSplits

  const MAX_WINNERS := 1000
  const MAX_CANDIDATES := 1000
  const MAX_HEALTHY := 4096
  const LEARNING_TTL := 604800
  const REVERIFY_INTERVAL := 1800
  const REVERIFY_HOLD := 15
  const HEALTHY_WINDOW := 900
  const CONFIRM_GAP := 60
  const CANDIDATE_TTL := 21600
  const CLOCK_SKEW := 300
  const DEFAULT_NETWORK := "network-default"
  const UINT32 := 0x1_0000_0000

  /** What the file keeps of a winner. */
  datatype Winner = Winner(
    profile: string, kind: Kind, confidence: nat, expiresAt: nat, failures: nat, verifiedAt: nat)
  datatype Entry = Entry(winner: Winner, reverifyStartedAt: nat)
  datatype Candidate = Candidate(profile: string, firstStrikeAt: nat, expiresAt: nat, persistUntil: nat)
  datatype State = State(entries: map<string, Entry>, candidates: map<string, Candidate>, healthyAt: map<string, nat>)
  datatype Outcome = Ignored | Forgotten | Nominated | Learned | Reverified | Refreshed

  predicate Known(profile: string) {
    Profiles.FindProfile(profile).Some?
  }

  // ---- keys ----

  function NormalizeHost(host: string): string {
    var s := WithoutTrailingDots(host);
    seq(|s|, i requires 0 <= i < |s| => LowerChar(s[i]))
  }

  function ScopeKey(network: string, host: string): string {
    (if network == "" then DEFAULT_NETWORK else network) + "|" + NormalizeHost(host)
  }

  /** The key names a network in front of a bar, as every key the store uses does. */
  predicate HasNetwork(key: string) {
    '|' in key
  }

  lemma {:induction false} ScopeKeyHasNetwork(network: string, host: string)
    ensures HasNetwork(ScopeKey(network, host))
  {
    var front := if network == "" then DEFAULT_NETWORK else network;
    assert ScopeKey(network, host)[|front|] == '|';
  }

  predicate EndsWith(key: string, suffix: string) {
    |suffix| <= |key| && key[|key| - |suffix|..] == suffix
  }

  // ---- what is live ----

  predicate LiveWinner(s: State, key: string, now: nat) {
    key in s.entries && s.entries[key].winner.expiresAt > now
  }

  /** A strike of this run lives on the monotonic clock, one from the file on its persisted expiry. */
  predicate CandidateLive(c: Candidate, now: nat, mono: nat) {
    if c.firstStrikeAt == 0 then c.persistUntil > now else c.expiresAt > mono
  }

  function LiveEntries(m: map<string, Entry>, now: nat): map<string, Entry> {
    map k | k in m && m[k].winner.expiresAt > now :: m[k]
  }

  function LiveCandidates(m: map<string, Candidate>, now: nat, mono: nat): map<string, Candidate> {
    map k | k in m && CandidateLive(m[k], now, mono) :: m[k]
  }

  function LiveHealthy(m: map<string, nat>, mono: nat): map<string, nat> {
    map k | k in m && m[k] + HEALTHY_WINDOW > mono :: m[k]
  }

  // ---- bounded tables ----

  predicate Least<V>(m: map<string, V>, k: string, rank: V -> nat) {
    k in m && forall j :: j in m ==> rank(m[k]) <= rank(m[j])
  }

  /** Room for one more: a full table first drops what is dead, and only then one of least rank. */
  ghost predicate Room<V>(m: map<string, V>, m': map<string, V>, live: map<string, V>, rank: V -> nat, capacity: nat) {
    if |m| < capacity then m' == m
    else if |live| < capacity then m' == live
    else exists k :: Least(live, k, rank) && m' == Without(live, k)
  }

  predicate Within<V(==)>(small: map<string, V>, big: map<string, V>) {
    forall k :: k in small ==> k in big && small[k] == big[k]
  }

  predicate WithinBut<V(==)>(small: map<string, V>, big: map<string, V>, key: string) {
    forall k :: k in small && k != key ==> k in big && small[k] == big[k]
  }

  function Without<V>(m: map<string, V>, key: string): map<string, V> {
    map k | k in m && k != key :: m[k]
  }

  lemma {:induction false} WithoutIsSmaller<V>(m: map<string, V>, key: string)
    requires key in m
    ensures |Without(m, key)| < |m|
  {
    assert Without(m, key).Keys == m.Keys - {key};
  }

  method FindLeast<V>(m: map<string, V>, rank: V -> nat) returns (least: string)
    requires m != map[]
    ensures Least(m, least, rank)
  {
    var todo := m.Keys;
    least :| least in todo;
    todo := todo - {least};
    while todo != {}
      invariant todo <= m.Keys && least in m
      invariant forall j :: j in m && j !in todo ==> rank(m[least]) <= rank(m[j])
      decreases |todo|
    {
      var k :| k in todo;
      todo := todo - {k};
      if rank(m[k]) < rank(m[least]) { least := k; }
    }
  }

  method MakeRoom<V(==)>(m: map<string, V>, live: map<string, V>, rank: V -> nat, capacity: nat)
    returns (m': map<string, V>)
    requires capacity > 0 && |m| <= capacity && Within(live, m)
    ensures Room(m, m', live, rank, capacity) && Within(m', m) && |m'| < capacity
  {
    if |m| < capacity { return m; }
    WithinIsSmaller(live, m);
    if |live| < capacity { return live; }
    var k := FindLeast(live, rank);
    WithoutIsSmaller(live, k);
    m' := Without(live, k);
  }

  lemma {:induction false} WithinIsSmaller<V>(small: map<string, V>, big: map<string, V>)
    requires Within(small, big)
    ensures |small| <= |big|
  {
    assert small.Keys <= big.Keys;
    assert big.Keys == small.Keys + (big.Keys - small.Keys);
  }

  lemma {:induction false} RoomIsWithin<V>(
    m: map<string, V>, m': map<string, V>, live: map<string, V>, rank: V -> nat, capacity: nat)
    requires Room(m, m', live, rank, capacity) && Within(live, m) && capacity > 0 && |m| <= capacity
    ensures Within(m', m) && |m'| < capacity
  {
    WithinIsSmaller(live, m);
    forall k | k in live ensures |Without(live, k)| < |live| { WithoutIsSmaller(live, k); }
  }

  lemma {:induction false} RemoveSize<V>(m: map<string, V>, key: string)
    ensures |Without(m, key)| <= |m|
  {
    WithinIsSmaller(Without(m, key), m);
  }

  // ---- one verdict ----

  function VerifiedAt(e: Entry): nat { e.winner.verifiedAt }
  function StruckAt(c: Candidate): nat { c.firstStrikeAt }

  ghost predicate RoomForEntry(m: map<string, Entry>, m': map<string, Entry>, now: nat) {
    Room(m, m', LiveEntries(m, now), VerifiedAt, MAX_WINNERS)
  }

  ghost predicate RoomForCandidate(m: map<string, Candidate>, m': map<string, Candidate>, now: nat, mono: nat) {
    Room(m, m', LiveCandidates(m, now, mono), StruckAt, MAX_CANDIDATES)
  }

  /** Any healthy host may go when all of them are recent. */
  function NoRank(at: nat): nat { 0 }

  ghost predicate RoomForHealthy(m: map<string, nat>, m': map<string, nat>, mono: nat) {
    Room(m, m', LiveHealthy(m, mono), NoRank, MAX_HEALTHY)
  }

  function Capped(confidence: nat): nat {
    if confidence < 100 then confidence else 100
  }

  function NewWinner(profile: string, kind: Kind, confidence: nat, now: nat): Winner {
    Winner(profile, kind, Capped(confidence), now + LEARNING_TTL, 0, now)
  }

  /** A new winner takes the place of whatever was known about the key. */
  ghost predicate Learn(s: State, s': State, key: string, winner: Winner, now: nat) {
    exists room :: LearnIn(room, s, s', key, winner, now)
  }

  ghost predicate LearnIn(room: map<string, Entry>, s: State, s': State, key: string, winner: Winner, now: nat) {
    && (if key in s.entries then room == s.entries else RoomForEntry(s.entries, room, now))
    && s' == State(room[key := Entry(winner, 0)], Without(s.candidates, key), s.healthyAt)
  }

  /** A first strike: a live nomination is pending from now on. */
  ghost predicate Nominate(s: State, s': State, key: string, profile: string, now: nat, mono: nat) {
    exists room :: NominateIn(room, s, s', key, profile, now, mono)
  }

  ghost predicate NominateIn(
    room: map<string, Candidate>, s: State, s': State, key: string, profile: string, now: nat, mono: nat)
  {
    && RoomForCandidate(Without(s.candidates, key), room, now, mono)
    && s' == s.(candidates := room[key := Candidate(profile, mono, mono + CANDIDATE_TTL, 0)])
  }

  predicate HasCandidate(s: State, key: string, now: nat, mono: nat) {
    key in s.candidates && CandidateLive(s.candidates[key], now, mono)
  }

  /** A differential for a key without this winner: nominate, note the strike, wait, or learn. */
  ghost predicate Strike(
    s: State, s': State, key: string, profile: string, confidence: nat, now: nat, mono: nat, outcome: Outcome,
    dirty: bool)
  {
    if !HasCandidate(s, key, now, mono) then
      Nominate(s, s', key, profile, now, mono) && outcome == Nominated && !dirty
    else
      var c := s.candidates[key];
      if c.firstStrikeAt == 0 then
        && s' == s.(candidates := s.candidates[key := Candidate(profile, mono, mono + CANDIDATE_TTL, c.persistUntil)])
        && outcome == Nominated && !dirty
      else if mono < c.firstStrikeAt + CONFIRM_GAP then
        s' == s.(candidates := s.candidates[key := c.(profile := profile)]) && outcome == Nominated && !dirty
      else
        && Learn(s, s', key, NewWinner(profile, SniInterferenceLikely, confidence, now), now)
        && outcome == Learned && dirty
  }

  function Retired(s: State, key: string): State {
    s.(entries := Without(s.entries, key), candidates := Without(s.candidates, key))
  }

  predicate HasPersistedCandidate(s: State, key: string) {
    key in s.candidates && s.candidates[key].persistUntil != 0
  }

  /** The winner after it proved itself against a fresh baseline. */
  function Reproved(w: Winner, kind: Kind, confidence: nat, now: nat): Winner {
    var renewed := w.(failures := 0, verifiedAt := now, expiresAt := now + LEARNING_TTL);
    if confidence > w.confidence then renewed.(confidence := Capped(confidence), kind := kind) else renewed
  }

  ghost predicate Remember(
    s: State, s': State, key: string, profile: string, kind: Kind, confidence: nat, now: nat, mono: nat,
    outcome: Outcome, dirty: bool)
  {
    if profile == BASELINE then
      && s' == Retired(s, key)
      && outcome == (if key in s.entries then Forgotten else Ignored)
      && dirty == (key in s.entries || HasPersistedCandidate(s, key))
    else if kind.TransientFailure? then s' == s && outcome == Ignored && !dirty
    else if kind.LearnedProfile? then
      if LiveWinner(s, key, now) && s.entries[key].winner.profile == profile then
        && s' == s.(entries := s.entries[key := s.entries[key].(winner := s.entries[key].winner.(failures := 0))])
        && outcome == Refreshed && dirty == (s.entries[key].winner.failures != 0)
      else s' == s && outcome == Ignored && !dirty
    else if LiveWinner(s, key, now) && s.entries[key].winner.profile == profile then
      && s' == s.(entries := s.entries[key := Entry(Reproved(s.entries[key].winner, kind, confidence, now), 0)])
      && outcome == Reverified && dirty
    else if kind.SniInterferenceLikely? then Strike(s, s', key, profile, confidence, now, mono, outcome, dirty)
    else Learn(s, s', key, NewWinner(profile, kind, confidence, now), now) && outcome == Learned && dirty
  }

  // ---- the other operations ----

  ghost predicate NoteHealthy(s: State, s': State, key: string, mono: nat, dirty: bool) {
    dirty == HasPersistedCandidate(s, key) && exists room :: HealthyIn(room, s, s', key, mono)
  }

  ghost predicate HealthyIn(room: map<string, nat>, s: State, s': State, key: string, mono: nat) {
    && (if key in s.healthyAt then room == s.healthyAt else RoomForHealthy(s.healthyAt, room, mono))
    && s' == State(s.entries, Without(s.candidates, key), room[key := mono])
  }

  predicate RecentlyHealthy(s: State, key: string, mono: nat) {
    key in s.healthyAt && s.healthyAt[key] <= mono < s.healthyAt[key] + HEALTHY_WINDOW
  }

  /** A failed winner loses confidence; a second failure in a row evicts it. */
  function AfterFailure(s: State, key: string, profile: string): State {
    if key !in s.entries || s.entries[key].winner.profile != profile then s
    else
      var w := s.entries[key].winner;
      var failures := (w.failures + 1) % UINT32;
      if failures >= 2 then s.(entries := Without(s.entries, key))
      else
        s.(entries := s.entries[key := s.entries[key].(winner :=
             w.(failures := failures, confidence := if w.confidence > 20 then w.confidence - 20 else 0))])
  }

  function WithoutHost<V>(m: map<string, V>, suffix: string): map<string, V> {
    map k | k in m && !EndsWith(k, suffix) :: m[k]
  }

  function AfterForget(s: State, suffix: string): State {
    s.(entries := WithoutHost(s.entries, suffix), candidates := WithoutHost(s.candidates, suffix))
  }

  predicate ForgetChanges(s: State, suffix: string) {
    || (exists k :: k in s.entries && EndsWith(k, suffix))
    || (exists k :: k in s.candidates && EndsWith(k, suffix) && s.candidates[k].persistUntil != 0)
  }

  /** A winner as a load at `at` admits it: proven, unexpired, and with nothing beyond what `at` can vouch for. */
  predicate Credible(w: Winner, at: nat) {
    && w.confidence <= 100 && w.failures < UINT32
    && 0 < w.verifiedAt <= at + CLOCK_SKEW && at < w.expiresAt <= at + LEARNING_TTL
  }

  /** What a reload at `at` may leave; nominations from the file carry no strike yet. */
  predicate AfterLoad(s: State, s': State, at: nat) {
    && s'.healthyAt == s.healthyAt && |s'.entries| <= MAX_WINNERS && |s'.candidates| <= MAX_CANDIDATES
    && (forall k :: k in s'.entries ==> HasNetwork(k) && Credible(s'.entries[k].winner, at))
    && (forall k :: k in s'.candidates ==>
          && HasNetwork(k) && s'.candidates[k].firstStrikeAt == 0
          && at < s'.candidates[k].persistUntil <= at + LEARNING_TTL)
    && Proper(s')
  }

  predicate Bypass(profile: string) {
    Known(profile) && profile != BASELINE
  }

  /** Only profiles of the table other than the untouched hello are remembered. */
  predicate Proper(s: State) {
    && (forall k :: k in s.entries ==> Bypass(s.entries[k].winner.profile))
    && (forall k :: k in s.candidates ==> Bypass(s.candidates[k].profile))
  }

  predicate Due(w: Winner, now: nat) {
    w.verifiedAt > now + CLOCK_SKEW || w.verifiedAt + REVERIFY_INTERVAL <= now
  }

  /** This connection starts a re-verification: the winner is due and no other one holds it. */
  predicate StartsReverify(s: State, key: string, now: nat, mono: nat) {
    && LiveWinner(s, key, now) && Due(s.entries[key].winner, now)
    && (s.entries[key].reverifyStartedAt == 0 || s.entries[key].reverifyStartedAt + REVERIFY_HOLD <= mono)
  }

  function AfterProbe(s: State, key: string, now: nat, mono: nat): State {
    if StartsReverify(s, key, now, mono)
    then s.(entries := s.entries[key := s.entries[key].(reverifyStartedAt := mono)]) else s
  }

  // ---- runs ----

  datatype Event =
    | Remembered(key: string, profile: string, kind: Kind, confidence: nat, now: nat, mono: nat, outcome: Outcome)
    | SeenHealthy(key: string, mono: nat)
    | FailureRecorded(key: string, profile: string)
    | HostForgotten(suffix: string)
    | Cleared
    | Loaded(at: nat)
    | Probed(key: string, now: nat, mono: nat)

  /** One critical section; `dirty` tells whether it takes a snapshot for the file. */
  ghost predicate Step(s: State, e: Event, s': State, dirty: bool) {
    match e
    case Remembered(key, profile, kind, confidence, now, mono, outcome) =>
      && mono > 0 && HasNetwork(key) && Known(profile)
      && Remember(s, s', key, profile, kind, confidence, now, mono, outcome, dirty)
    case SeenHealthy(key, mono) => HasNetwork(key) && NoteHealthy(s, s', key, mono, dirty)
    case FailureRecorded(key, profile) =>
      s' == AfterFailure(s, key, profile) && dirty == (key in s.entries && s.entries[key].winner.profile == profile)
    case HostForgotten(suffix) => s' == AfterForget(s, suffix) && dirty == ForgetChanges(s, suffix)
    case Cleared => s' == State(map[], map[], map[]) && dirty
    case Loaded(at) => AfterLoad(s, s', at) && !dirty
    case Probed(key, now, mono) => mono > 0 && s' == AfterProbe(s, key, now, mono) && !dirty
  }

  ghost predicate Run(events: seq<Event>, states: seq<State>, dirty: seq<bool>) {
    && |states| == |events| + 1 && |dirty| == |events| && states[0] == State(map[], map[], map[])
    && forall i :: 0 <= i < |events| ==> StepAt(events, states, dirty, i)
  }

  ghost predicate StepAt(events: seq<Event>, states: seq<State>, dirty: seq<bool>, i: nat)
    requires i < |events| && |states| == |events| + 1 && |dirty| == |events|
  {
    Step(states[i], events[i], states[i + 1], dirty[i])
  }

  /** The operations after which an earlier strike for the key no longer counts. */
  predicate Cancels(e: Event, key: string) {
    || (e.SeenHealthy? && e.key == key)
    || (e.HostForgotten? && EndsWith(key, e.suffix))
    || e.Cleared? || e.Loaded?
    || (e.Remembered? && e.key == key && e.profile == BASELINE)
  }

  predicate IsStrike(e: Event, key: string, at: nat) {
    && e.Remembered? && e.key == key && e.kind.SniInterferenceLikely? && e.profile != BASELINE
    && e.outcome == Nominated && e.mono == at
  }

  predicate Learns(e: Event, key: string) {
    e.Remembered? && e.key == key && e.outcome == Learned
  }

  /** A differential for a key without a live nomination. */
  predicate FirstStrike(s: State, e: Event) {
    && e.Remembered? && e.kind.SniInterferenceLikely? && e.outcome == Nominated
    && !HasCandidate(s, e.key, e.now, e.mono)
  }

  // ---- bounds ----

  predicate Bounded(s: State) {
    |s.entries| <= MAX_WINNERS && |s.candidates| <= MAX_CANDIDATES && |s.healthyAt| <= MAX_HEALTHY
  }

  lemma {:induction false} LearnKeepsBounds(s: State, s': State, key: string, winner: Winner, now: nat)
    requires Bounded(s) && Learn(s, s', key, winner, now)
    ensures Bounded(s') && WithinBut(s'.entries, s.entries, key)
    ensures key in s'.entries && s'.entries[key].winner == winner && s'.candidates == Without(s.candidates, key)
  {
    var room :| LearnIn(room, s, s', key, winner, now);
    if key !in s.entries { RoomIsWithin(s.entries, room, LiveEntries(s.entries, now), VerifiedAt, MAX_WINNERS); }
    WriteSize(room, key, Entry(winner, 0));
    RemoveSize(s.candidates, key);
  }

  lemma {:induction false} NominateKeepsBounds(s: State, s': State, key: string, profile: string, now: nat, mono: nat)
    requires Bounded(s) && Nominate(s, s', key, profile, now, mono)
    ensures Bounded(s') && s'.entries == s.entries && WithinBut(s'.candidates, s.candidates, key)
    ensures key in s'.candidates && s'.candidates[key] == Candidate(profile, mono, mono + CANDIDATE_TTL, 0)
  {
    var base := Without(s.candidates, key);
    var room :| NominateIn(room, s, s', key, profile, now, mono);
    RemoveSize(s.candidates, key);
    RoomIsWithin(base, room, LiveCandidates(base, now, mono), StruckAt, MAX_CANDIDATES);
    WriteSize(room, key, Candidate(profile, mono, mono + CANDIDATE_TTL, 0));
  }

  lemma {:induction false} HealthyKeepsBounds(s: State, s': State, key: string, mono: nat, dirty: bool)
    requires Bounded(s) && NoteHealthy(s, s', key, mono, dirty)
    ensures Bounded(s') && s'.entries == s.entries && s'.candidates == Without(s.candidates, key)
    ensures key in s'.healthyAt && s'.healthyAt[key] == mono
  {
    var room :| HealthyIn(room, s, s', key, mono);
    if key !in s.healthyAt { RoomIsWithin(s.healthyAt, room, LiveHealthy(s.healthyAt, mono), NoRank, MAX_HEALTHY); }
    WriteSize(room, key, mono);
    RemoveSize(s.candidates, key);
  }

  // ---- what one verdict does ----

  /** The effect of a verdict on everything but its own key: entries may only be evicted. */
  lemma {:induction false} RememberLocal(
    s: State, s': State, key: string, profile: string, kind: Kind, confidence: nat, now: nat, mono: nat,
    outcome: Outcome, dirty: bool)
    requires Bounded(s) && Remember(s, s', key, profile, kind, confidence, now, mono, outcome, dirty)
    ensures Bounded(s')
    ensures WithinBut(s'.entries, s.entries, key) && WithinBut(s'.candidates, s.candidates, key)
  {
    if profile == BASELINE {
      RemoveSize(s.entries, key);
      RemoveSize(s.candidates, key);
    } else if kind.TransientFailure? {
    } else if kind.LearnedProfile? {
      if key in s.entries { WriteSize(s.entries, key, s'.entries[key]); }
    } else if LiveWinner(s, key, now) && s.entries[key].winner.profile == profile {
      WriteSize(s.entries, key, s'.entries[key]);
    } else if kind.SniInterferenceLikely? {
      StrikeLocal(s, s', key, profile, confidence, now, mono, outcome, dirty);
    } else {
      LearnKeepsBounds(s, s', key, NewWinner(profile, kind, confidence, now), now);
    }
  }

  lemma {:induction false} StrikeLocal(
    s: State, s': State, key: string, profile: string, confidence: nat, now: nat, mono: nat, outcome: Outcome,
    dirty: bool)
    requires Bounded(s) && Strike(s, s', key, profile, confidence, now, mono, outcome, dirty)
    ensures Bounded(s')
    ensures WithinBut(s'.entries, s.entries, key) && WithinBut(s'.candidates, s.candidates, key)
  {
    if outcome == Learned {
      LearnKeepsBounds(s, s', key, NewWinner(profile, SniInterferenceLikely, confidence, now), now);
    } else if !HasCandidate(s, key, now, mono) {
      NominateKeepsBounds(s, s', key, profile, now, mono);
    } else {
      WriteSize(s.candidates, key, s'.candidates[key]);
    }
  }

  lemma {:induction false} FailureKeepsBounds(s: State, key: string, profile: string)
    requires Bounded(s)
    ensures Bounded(AfterFailure(s, key, profile))
  {
    var s' := AfterFailure(s, key, profile);
    RemoveSize(s.entries, key);
    if key in s.entries && key in s'.entries { WriteSize(s.entries, key, s'.entries[key]); }
  }

  lemma {:induction false} StepKeepsBounds(s: State, e: Event, s': State, dirty: bool)
    requires Bounded(s) && Step(s, e, s', dirty)
    ensures Bounded(s')
  {
    match e
    case Remembered(key, profile, kind, confidence, now, mono, outcome) =>
      RememberLocal(s, s', key, profile, kind, confidence, now, mono, outcome, dirty);
    case SeenHealthy(key, mono) => HealthyKeepsBounds(s, s', key, mono, dirty);
    case FailureRecorded(key, profile) => FailureKeepsBounds(s, key, profile);
    case HostForgotten(suffix) =>
      WithinIsSmaller(WithoutHost(s.entries, suffix), s.entries);
      WithinIsSmaller(WithoutHost(s.candidates, suffix), s.candidates);
    case Cleared =>
    case Loaded(at) =>
    case Probed(key, now, mono) =>
      if key in s.entries { WriteSize(s.entries, key, s.entries[key].(reverifyStartedAt := mono)); }
  }

  /** The store never holds more than 1000 winners, 1000 nominations and 4096 healthy hosts. */
  lemma {:induction false} RunKeepsBounds(events: seq<Event>, states: seq<State>, dirty: seq<bool>, n: nat)
    requires Run(events, states, dirty) && n <= |events|
    ensures Bounded(states[n])
  {
    if n > 0 {
      RunKeepsBounds(events, states, dirty, n - 1);
      assert StepAt(events, states, dirty, n - 1);
      StepKeepsBounds(states[n - 1], events[n - 1], states[n], dirty[n - 1]);
    }
  }

  // ---- strikes ----

  /** A pending strike after a step was made by that step, or was there before and not cancelled. */
  lemma {:induction false} StrikeStep(s: State, e: Event, s': State, dirty: bool, key: string)
    requires Bounded(s) && Step(s, e, s', dirty) && key in s'.candidates && s'.candidates[key].firstStrikeAt != 0
    ensures var at := s'.candidates[key].firstStrikeAt;
      || (IsStrike(e, key, at) && s'.candidates[key].expiresAt == at + CANDIDATE_TTL)
      || (SameStrike(s, s', key) && !Cancels(e, key) && !Learns(e, key))
  {
    if e.Remembered? {
      RememberLocal(s, s', e.key, e.profile, e.kind, e.confidence, e.now, e.mono, e.outcome, dirty);
      if e.key == key { OwnStrikeStep(s, s', key, e.profile, e.kind, e.confidence, e.now, e.mono, e.outcome, dirty); }
    } else {
      OtherStrikeStep(s, e, s', dirty, key);
    }
  }

  predicate SameStrike(s: State, s': State, key: string)
    requires key in s'.candidates
  {
    && key in s.candidates && s.candidates[key].firstStrikeAt == s'.candidates[key].firstStrikeAt
    && s.candidates[key].expiresAt == s'.candidates[key].expiresAt
  }

  lemma {:induction false} OtherStrikeStep(s: State, e: Event, s': State, dirty: bool, key: string)
    requires Bounded(s) && Step(s, e, s', dirty) && !e.Remembered?
    requires key in s'.candidates && s'.candidates[key].firstStrikeAt != 0
    ensures SameStrike(s, s', key) && !Cancels(e, key)
  {
    if e.SeenHealthy? { HealthyKeepsBounds(s, s', e.key, e.mono, dirty); }
  }

  lemma {:induction false} OwnStrikeStep(
    s: State, s': State, key: string, profile: string, kind: Kind, confidence: nat, now: nat, mono: nat,
    outcome: Outcome, dirty: bool)
    requires Bounded(s) && mono > 0 && Remember(s, s', key, profile, kind, confidence, now, mono, outcome, dirty)
    requires key in s'.candidates && s'.candidates[key].firstStrikeAt != 0
    ensures profile != BASELINE && outcome != Learned
    ensures
      || (kind.SniInterferenceLikely? && outcome == Nominated && s'.candidates[key].firstStrikeAt == mono
          && s'.candidates[key].expiresAt == mono + CANDIDATE_TTL)
      || SameStrike(s, s', key)
  {
    if outcome == Learned {
      LearnKeepsBounds(s, s', key, NewWinner(profile, kind, confidence, now), now);
    } else if kind.SniInterferenceLikely? && outcome == Nominated && !HasCandidate(s, key, now, mono) {
      NominateKeepsBounds(s, s', key, profile, now, mono);
    }
  }

  /** The strike behind a pending nomination, with nothing since that would have cancelled it. */
  lemma {:induction false} StrikeHasSource(
    events: seq<Event>, states: seq<State>, dirty: seq<bool>, n: nat, key: string)
    returns (j: nat)
    requires Run(events, states, dirty) && n <= |events|
    requires key in states[n].candidates && states[n].candidates[key].firstStrikeAt != 0
    ensures j < n && IsStrike(events[j], key, states[n].candidates[key].firstStrikeAt)
    ensures states[n].candidates[key].expiresAt == events[j].mono + CANDIDATE_TTL
    ensures forall k :: j < k < n ==> !Cancels(events[k], key) && !Learns(events[k], key)
  {
    if n > 0 {
      RunKeepsBounds(events, states, dirty, n - 1);
      assert StepAt(events, states, dirty, n - 1);
      StrikeStep(states[n - 1], events[n - 1], states[n], dirty[n - 1], key);
      if IsStrike(events[n - 1], key, states[n].candidates[key].firstStrikeAt)
         && states[n].candidates[key].expiresAt == events[n - 1].mono + CANDIDATE_TTL {
        j := n - 1;
      } else {
        j := StrikeHasSource(events, states, dirty, n - 1, key);
      }
    }
  }

  /** A winner learned from a differential had an earlier one, in time and undisturbed. */
  lemma {:induction false} ConfirmedTwice(events: seq<Event>, states: seq<State>, dirty: seq<bool>, i: nat)
    returns (j: nat)
    requires Run(events, states, dirty) && i < |events|
    requires events[i].Remembered? && events[i].kind.SniInterferenceLikely? && events[i].outcome == Learned
    ensures j < i && events[j].Remembered? && IsStrike(events[j], events[i].key, events[j].mono)
    ensures events[j].mono + CONFIRM_GAP <= events[i].mono < events[j].mono + CANDIDATE_TTL
    ensures forall k :: j < k < i ==> !Cancels(events[k], events[i].key) && !Learns(events[k], events[i].key)
  {
    assert StepAt(events, states, dirty, i);
    j := StrikeHasSource(events, states, dirty, i, events[i].key);
  }

  // ---- winners ----

  /** The operations that take a winner away from its key. */
  predicate Retires(e: Event, key: string) {
    || (e.HostForgotten? && EndsWith(key, e.suffix))
    || e.Cleared? || e.Loaded?
    || (e.Remembered? && e.key == key && e.profile == BASELINE)
  }

  predicate Reproves(e: Event, key: string) {
    e.Remembered? && e.key == key && e.outcome == Outcome.Reverified
  }

  /** Same winner, and the same proof of it. */
  predicate SameProof(w: Winner, w': Winner) {
    w.profile == w'.profile && w.verifiedAt == w'.verifiedAt && w.expiresAt == w'.expiresAt
  }

  /** The proof of `w` is the verdict `e`. */
  predicate ProvenBy(w: Winner, e: Event) {
    && e.Remembered? && w.profile == e.profile && w.verifiedAt == e.now && w.expiresAt == e.now + LEARNING_TTL
    && !e.kind.LearnedProfile? && !e.kind.TransientFailure? && e.profile != BASELINE
  }

  /** Where the winner of a key after one step comes from. */
  predicate WinnerFrom(s: State, e: Event, w: Winner, key: string) {
    || e.Loaded?
    || (Learns(e, key) && ProvenBy(w, e))
    || (key in s.entries && !Retires(e, key) && Reproves(e, key) && ProvenBy(w, e)
        && s.entries[key].winner.profile == w.profile)
    || (key in s.entries && !Retires(e, key) && !Learns(e, key) && SameProof(s.entries[key].winner, w))
  }

  lemma {:induction false} OwnWinnerStep(
    s: State, s': State, key: string, profile: string, kind: Kind, confidence: nat, now: nat, mono: nat,
    outcome: Outcome, dirty: bool)
    requires Bounded(s) && mono > 0 && Remember(s, s', key, profile, kind, confidence, now, mono, outcome, dirty)
    requires key in s'.entries
    ensures WinnerFrom(s, Remembered(key, profile, kind, confidence, now, mono, outcome), s'.entries[key].winner, key)
  {
    if outcome == Learned {
      LearnKeepsBounds(s, s', key, NewWinner(profile, kind, confidence, now), now);
    } else if kind.SniInterferenceLikely? && outcome == Nominated && !HasCandidate(s, key, now, mono) {
      NominateKeepsBounds(s, s', key, profile, now, mono);
    }
  }

  lemma {:induction false} WinnerStep(s: State, e: Event, s': State, dirty: bool, key: string)
    requires Bounded(s) && Step(s, e, s', dirty) && key in s'.entries
    ensures WinnerFrom(s, e, s'.entries[key].winner, key)
  {
    if e.Remembered? {
      RememberLocal(s, s', e.key, e.profile, e.kind, e.confidence, e.now, e.mono, e.outcome, dirty);
      if e.key == key { OwnWinnerStep(s, s', key, e.profile, e.kind, e.confidence, e.now, e.mono, e.outcome, dirty); }
    } else if e.SeenHealthy? {
      HealthyKeepsBounds(s, s', e.key, e.mono, dirty);
    }
  }

  /**
    Where a winner comes from: event `i` loaded or learned it, event `v` last proved it, and nothing
    in between retired it.
   */
  lemma {:induction false} WinnerHasSource(
    events: seq<Event>, states: seq<State>, dirty: seq<bool>, n: nat, key: string)
    returns (i: nat, v: nat)
    requires Run(events, states, dirty) && n <= |events| && key in states[n].entries
    ensures i <= v < n
    ensures events[i].Loaded?
      || (Learns(events[i], key) && events[i].profile == states[n].entries[key].winner.profile)
    ensures events[v].Loaded?
      || ((Learns(events[v], key) || Reproves(events[v], key)) && ProvenBy(states[n].entries[key].winner, events[v]))
    ensures forall k :: i < k < n ==> !Retires(events[k], key)
  {
    if n > 0 {
      var e := events[n - 1];
      RunKeepsBounds(events, states, dirty, n - 1);
      assert StepAt(events, states, dirty, n - 1);
      WinnerStep(states[n - 1], e, states[n], dirty[n - 1], key);
      if e.Loaded? || (Learns(e, key) && ProvenBy(states[n].entries[key].winner, e)) {
        i, v := n - 1, n - 1;
      } else {
        i, v := WinnerHasSource(events, states, dirty, n - 1, key);
        if Reproves(e, key) && ProvenBy(states[n].entries[key].winner, e) { v := n - 1; }
      }
    }
  }

  /** What a diagnosis of one connection may report about a profile that got through. */
  predicate InferredVerdict(profile: string, kind: Kind) {
    profile == BASELINE || kind.LearnedProfile? || kind.TransientFailure? || kind.SniInterferenceLikely?
  }

  predicate Inferred(events: seq<Event>) {
    forall i :: 0 <= i < |events| && events[i].Remembered? ==> InferredVerdict(events[i].profile, events[i].kind)
  }

  /**
    When every verdict comes from a diagnosis, every winner the store ever holds was loaded from the
    file or confirmed by two differentials, and was last proved by a differential.
   */
  lemma {:induction false} WinnersAreConfirmed(
    events: seq<Event>, states: seq<State>, dirty: seq<bool>, n: nat, key: string)
    returns (j: nat, i: nat, v: nat)
    requires Run(events, states, dirty) && Inferred(events) && n <= |events| && key in states[n].entries
    ensures i <= v < n && (events[i].Loaded? || Learns(events[i], key))
    ensures !events[i].Loaded? ==>
      && j < i && events[j].Remembered? && IsStrike(events[j], key, events[j].mono)
      && events[j].mono + CONFIRM_GAP <= events[i].mono < events[j].mono + CANDIDATE_TTL
      && (forall k :: j < k < i ==> !Cancels(events[k], key))
    ensures !events[v].Loaded? ==>
      && events[v].Remembered? && events[v].kind.SniInterferenceLikely?
      && ProvenBy(states[n].entries[key].winner, events[v])
    ensures forall k :: i < k < n ==> !Retires(events[k], key)
  {
    j := 0;
    i, v := WinnerHasSource(events, states, dirty, n, key);
    if !events[i].Loaded? {
      LearnedOnVerdict(events, states, dirty, i);
      j := ConfirmedTwice(events, states, dirty, i);
    }
  }

  lemma {:induction false} LearnedOnVerdict(events: seq<Event>, states: seq<State>, dirty: seq<bool>, i: nat)
    requires Run(events, states, dirty) && Inferred(events) && i < |events|
    requires events[i].Remembered? && events[i].outcome == Learned
    ensures events[i].kind.SniInterferenceLikely?
  {
    assert StepAt(events, states, dirty, i);
  }

  /** A cache hit or a hiccup creates no winner, retires none and renews no proof. */
  lemma {:induction false} WeakVerdictsProveNothing(s: State, e: Event, s': State, dirty: bool)
    requires Step(s, e, s', dirty) && e.Remembered? && e.profile != BASELINE
    requires e.kind.LearnedProfile? || e.kind.TransientFailure?
    ensures s'.entries.Keys == s.entries.Keys && s'.candidates == s.candidates && s'.healthyAt == s.healthyAt
    ensures forall k :: k in s.entries ==> SameProof(s.entries[k].winner, s'.entries[k].winner)
  {
  }

  // ---- what reaches the file ----

  /** The winners as the file would keep them. */
  function Persisted(s: State): map<string, Winner> {
    map k | k in s.entries :: s.entries[k].winner
  }

  /** Whenever the winners change, other than by reading the file, the same step takes a snapshot. */
  lemma {:induction false} ChangesAreSnapshotted(s: State, e: Event, s': State, dirty: bool)
    requires Bounded(s) && Step(s, e, s', dirty) && !e.Loaded?
    ensures Persisted(s') != Persisted(s) ==> dirty
  {
    if !dirty {
      if e.SeenHealthy? {
        HealthyKeepsBounds(s, s', e.key, e.mono, dirty);
      } else if FirstStrike(s, e) {
        NominateKeepsBounds(s, s', e.key, e.profile, e.now, e.mono);
      }
    }
  }

  // ---- what is remembered is a profile ----

  lemma {:induction false} StepKeepsProper(s: State, e: Event, s': State, dirty: bool)
    requires Bounded(s) && Proper(s) && Step(s, e, s', dirty)
    ensures Proper(s')
  {
    if !e.Loaded? {
      forall k | k in s'.entries ensures Bypass(s'.entries[k].winner.profile) {
        WinnerStep(s, e, s', dirty, k);
      }
    }
    if !e.Loaded? {
      forall k | k in s'.candidates ensures Bypass(s'.candidates[k].profile) {
        CandidateProfile(s, e, s', dirty, k);
      }
    }
  }

  lemma {:induction false} CandidateProfile(s: State, e: Event, s': State, dirty: bool, key: string)
    requires Bounded(s) && Step(s, e, s', dirty) && !e.Loaded? && key in s'.candidates
    ensures
      || (key in s.candidates && s.candidates[key].profile == s'.candidates[key].profile)
      || (e.Remembered? && Bypass(e.profile) && s'.candidates[key].profile == e.profile)
  {
    if e.Remembered? {
      RememberLocal(s, s', e.key, e.profile, e.kind, e.confidence, e.now, e.mono, e.outcome, dirty);
      if e.key == key && e.outcome == Learned {
        LearnKeepsBounds(s, s', key, NewWinner(e.profile, e.kind, e.confidence, e.now), e.now);
      } else if e.key == key && FirstStrike(s, e) {
        NominateKeepsBounds(s, s', key, e.profile, e.now, e.mono);
      }
    } else if e.SeenHealthy? {
      HealthyKeepsBounds(s, s', e.key, e.mono, dirty);
    }
  }

  lemma {:induction false} RunKeepsProper(events: seq<Event>, states: seq<State>, dirty: seq<bool>, n: nat)
    requires Run(events, states, dirty) && n <= |events|
    ensures Proper(states[n])
  {
    if n > 0 {
      RunKeepsProper(events, states, dirty, n - 1);
      RunKeepsBounds(events, states, dirty, n - 1);
      assert StepAt(events, states, dirty, n - 1);
      StepKeepsProper(states[n - 1], events[n - 1], states[n], dirty[n - 1]);
    }
  }

  // ---- what the clock allows ----

  /** The wall clock was set when the event read it, and read at most `clock`. */
  predicate OnTime(e: Event, clock: nat) {
    (e.Remembered? ==> 0 < e.now <= clock) && (e.Loaded? ==> e.at <= clock)
  }

  predicate DatedWinner(key: string, w: Winner, clock: nat) {
    && HasNetwork(key) && w.confidence <= 100 && w.failures < UINT32
    && 0 < w.verifiedAt <= clock + CLOCK_SKEW && w.expiresAt <= clock + LEARNING_TTL
  }

  predicate DatedCandidate(key: string, c: Candidate, clock: nat) {
    HasNetwork(key) && c.persistUntil <= clock + LEARNING_TTL
  }

  /** Nothing the store holds is stamped beyond what a clock that has not passed `clock` can have written. */
  predicate Dated(s: State, clock: nat) {
    && (forall k :: k in s.entries ==> DatedWinner(k, s.entries[k].winner, clock))
    && (forall k :: k in s.candidates ==> DatedCandidate(k, s.candidates[k], clock))
  }

  lemma {:induction false} OwnWinnerDated(s: State, e: Event, s': State, dirty: bool, clock: nat)
    requires Bounded(s) && Dated(s, clock) && e.Remembered? && Step(s, e, s', dirty) && OnTime(e, clock)
    requires e.key in s'.entries
    ensures DatedWinner(e.key, s'.entries[e.key].winner, clock)
  {
    if e.outcome == Learned {
      LearnKeepsBounds(s, s', e.key, NewWinner(e.profile, e.kind, e.confidence, e.now), e.now);
    } else if e.kind.SniInterferenceLikely? && e.outcome == Nominated && !HasCandidate(s, e.key, e.now, e.mono) {
      NominateKeepsBounds(s, s', e.key, e.profile, e.now, e.mono);
    }
  }

  lemma {:induction false} OwnCandidateDated(s: State, e: Event, s': State, dirty: bool, clock: nat)
    requires Bounded(s) && Dated(s, clock) && e.Remembered? && Step(s, e, s', dirty) && e.key in s'.candidates
    ensures DatedCandidate(e.key, s'.candidates[e.key], clock)
  {
    if e.outcome == Learned {
      LearnKeepsBounds(s, s', e.key, NewWinner(e.profile, e.kind, e.confidence, e.now), e.now);
    } else if e.kind.SniInterferenceLikely? && e.outcome == Nominated && !HasCandidate(s, e.key, e.now, e.mono) {
      NominateKeepsBounds(s, s', e.key, e.profile, e.now, e.mono);
    }
  }

  lemma {:induction false} StepKeepsDated(s: State, e: Event, s': State, dirty: bool, clock: nat)
    requires Bounded(s) && Dated(s, clock) && Step(s, e, s', dirty) && OnTime(e, clock)
    ensures Dated(s', clock)
  {
    if e.Remembered? {
      VerdictKeepsDated(s, e, s', dirty, clock);
    } else if e.SeenHealthy? {
      HealthyKeepsBounds(s, s', e.key, e.mono, dirty);
    }
  }

  lemma {:induction false} VerdictKeepsDated(s: State, e: Event, s': State, dirty: bool, clock: nat)
    requires Bounded(s) && Dated(s, clock) && e.Remembered? && Step(s, e, s', dirty) && OnTime(e, clock)
    ensures Dated(s', clock)
  {
    RememberLocal(s, s', e.key, e.profile, e.kind, e.confidence, e.now, e.mono, e.outcome, dirty);
    if e.key in s'.entries { OwnWinnerDated(s, e, s', dirty, clock); }
    if e.key in s'.candidates { OwnCandidateDated(s, e, s', dirty, clock); }
  }

  /** As long as the clock reads at most `clock`, nothing in the store is stamped beyond it. */
  lemma {:induction false} RunKeepsDated(events: seq<Event>, states: seq<State>, dirty: seq<bool>, n: nat, clock: nat)
    requires Run(events, states, dirty) && n <= |events|
    requires forall i :: 0 <= i < n ==> OnTime(events[i], clock)
    ensures Dated(states[n], clock)
  {
    if n > 0 {
      RunKeepsDated(events, states, dirty, n - 1, clock);
      RunKeepsBounds(events, states, dirty, n - 1);
      assert StepAt(events, states, dirty, n - 1);
      StepKeepsDated(states[n - 1], events[n - 1], states[n], dirty[n - 1], clock);
    }
  }

  // ---- one re-verification at a time ----

  /** The hold of a key is not lifted by this step. */
  predicate KeepsHold(e: Event, key: string) {
    !e.Loaded? && !(e.Remembered? && e.key == key && (e.outcome == Learned || e.outcome == Outcome.Reverified))
  }

  lemma {:induction false} HoldStep(s: State, e: Event, s': State, dirty: bool, key: string, at: nat)
    requires Bounded(s) && Step(s, e, s', dirty) && KeepsHold(e, key)
    requires key in s.entries && key in s'.entries && s.entries[key].reverifyStartedAt >= at > 0
    ensures s'.entries[key].reverifyStartedAt >= at
  {
    if e.Remembered? {
      RememberLocal(s, s', e.key, e.profile, e.kind, e.confidence, e.now, e.mono, e.outcome, dirty);
      if e.key == key && FirstStrike(s, e) {
        NominateKeepsBounds(s, s', key, e.profile, e.now, e.mono);
      }
    } else if e.SeenHealthy? {
      HealthyKeepsBounds(s, s', e.key, e.mono, dirty);
    }
  }

  lemma {:induction false} HoldLasts(
    events: seq<Event>, states: seq<State>, dirty: seq<bool>, i: nat, n: nat, key: string, at: nat)
    requires Run(events, states, dirty) && i <= n <= |events|
    requires forall k :: i <= k <= n ==> key in states[k].entries
    requires forall k :: i <= k < n ==> KeepsHold(events[k], key)
    requires states[i].entries[key].reverifyStartedAt >= at > 0
    ensures states[n].entries[key].reverifyStartedAt >= at
  {
    if i < n {
      HoldLasts(events, states, dirty, i, n - 1, key, at);
      RunKeepsBounds(events, states, dirty, n - 1);
      assert StepAt(events, states, dirty, n - 1);
      assert KeepsHold(events[n - 1], key);
      HoldStep(states[n - 1], events[n - 1], states[n], dirty[n - 1], key, at);
    }
  }

  /** While a winner stays and is not proved again, re-verifications of it start at least 15 s apart. */
  lemma {:induction false} ReverificationsAreSpread(
    events: seq<Event>, states: seq<State>, dirty: seq<bool>, i: nat, j: nat, key: string)
    requires Run(events, states, dirty) && i < j < |events|
    requires events[i].Probed? && events[i].key == key && StartsReverify(states[i], key, events[i].now, events[i].mono)
    requires events[j].Probed? && events[j].key == key && StartsReverify(states[j], key, events[j].now, events[j].mono)
    requires forall k :: i < k <= j ==> key in states[k].entries
    requires forall k :: i < k < j ==> KeepsHold(events[k], key)
    ensures events[j].mono >= events[i].mono + REVERIFY_HOLD
  {
    assert StepAt(events, states, dirty, i);
    var first := i + 1;
    assert key in states[first].entries;
    HoldLasts(events, states, dirty, first, j, key, events[i].mono);
  }
}
