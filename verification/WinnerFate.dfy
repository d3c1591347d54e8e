/**
  When a winner goes, and when it stays.

  Main results, over every run: an operation takes a winner away exactly when the untouched hello got through to
  its host, it failed a second time in a row, its host was forgotten, everything was cleared, or a new winner
  found the table full and this one expired or proved the longest ago; forgetting a host takes away everything
  about it on every network, and nothing about another host; and no other operation changes a winner's profile.
 */
module WinnerFate {
  import opened Collections
  import opened Text
  import opened Diagnosis
  import opened Learning
  import opened LearningProgress

  /** The operation is meant to end what is known of the key. */
  predicate Ends(s: State, e: Event, key: string)
    requires key in s.entries
  {
    match e
    case Remembered(k, profile, _, _, _, _, _) => k == key && profile == "none"
    case FailureRecorded(k, profile) =>
      k == key && s.entries[key].winner.profile == profile && 1 <= s.entries[key].winner.failures < 0xFFFF_FFFF
    case HostForgotten(suffix) => EndsWith(key, suffix)
    case Cleared => true
    case _ => false
  }

  /** No winner but that of `but` that is left was proved before the key's. */
  predicate LongestUnproved(s: State, s': State, key: string, but: string)
    requires key in s.entries
  {
    forall j :: j in s'.entries && j != but ==> s.entries[key].winner.verifiedAt <= s'.entries[j].winner.verifiedAt
  }

  /** A winner learned for another key finds 1000 of them; this one is expired, or the longest unproved. */
  predicate MakesWay(s: State, e: Event, s': State, key: string)
    requires key in s.entries
  {
    && e.Remembered? && e.key != key && e.key !in s.entries && e.outcome == Learned && |s.entries| >= 1000
    && (s.entries[key].winner.expiresAt <= e.now || LongestUnproved(s, s', key, e.key))
  }

  lemma {:induction false} LearningTakes(s: State, s': State, key: string, other: string, winner: Winner, now: nat)
    requires Bounded(s) && Learn(s, s', other, winner, now)
    requires key in s.entries && key != other
    ensures key !in s'.entries ==>
      && other !in s.entries && |s.entries| >= 1000
      && (s.entries[key].winner.expiresAt <= now || LongestUnproved(s, s', key, other))
    ensures key in s'.entries ==> s'.entries[key] == s.entries[key]
  {
    LearnKeepsBounds(s, s', other, winner, now);
    var room :| LearnIn(room, s, s', other, winner, now);
    if key !in s'.entries {
      RoomLosesOnlyLeast(s.entries, room, LiveEntries(s.entries, now), VerifiedAt, MAX_WINNERS, key);
    }
  }

  lemma {:induction false} VerdictTakes(s: State, e: Event, s': State, dirty: bool, key: string)
    requires Bounded(s) && e.Remembered? && Step(s, e, s', dirty) && key in s.entries && !Ends(s, e, key)
    ensures key !in s'.entries ==> MakesWay(s, e, s', key)
    ensures key in s'.entries && e.key != key ==> s'.entries[key] == s.entries[key]
    ensures e.key == key ==> key in s'.entries
    ensures key in s'.entries && !Learns(e, key) ==> s'.entries[key].winner.profile == s.entries[key].winner.profile
  {
    RememberLocal(s, s', e.key, e.profile, e.kind, e.confidence, e.now, e.mono, e.outcome, dirty);
    if e.outcome == Learned {
      var kind := if e.kind.SniInterferenceLikely? then SniInterferenceLikely else e.kind;
      LearnKeepsBounds(s, s', e.key, NewWinner(e.profile, kind, e.confidence, e.now), e.now);
      if e.key != key { LearningTakes(s, s', key, e.key, s'.entries[e.key].winner, e.now); }
    }
  }

  /** The count of failures keeps to its 32 bits. */
  lemma {:induction false} FailuresFit(
    events: seq<Event>, states: seq<State>, dirty: seq<bool>, n: nat, key: string)
    requires Run(events, states, dirty) && n <= |events| && key in states[n].entries
    ensures states[n].entries[key].winner.failures < UINT32
    decreases n
  {
    if n > 0 {
      var s, e, s' := states[n - 1], events[n - 1], states[n];
      RunKeepsBounds(events, states, dirty, n - 1);
      assert StepAt(events, states, dirty, n - 1);
      if key in s.entries { FailuresFit(events, states, dirty, n - 1, key); }
      if e.Remembered? {
        VerdictCounts(s, e, s', dirty[n - 1], key);
      } else if e.SeenHealthy? {
        HealthyKeepsBounds(s, s', e.key, e.mono, dirty[n - 1]);
      }
    }
  }

  /** A verdict leaves a winner's count of failures alone or starts it again. */
  lemma {:induction false} VerdictCounts(s: State, e: Event, s': State, dirty: bool, key: string)
    requires Bounded(s) && e.Remembered? && Step(s, e, s', dirty) && key in s'.entries
    ensures s'.entries[key].winner.failures == 0
      || (key in s.entries && s'.entries[key].winner.failures == s.entries[key].winner.failures)
  {
    RememberLocal(s, s', e.key, e.profile, e.kind, e.confidence, e.now, e.mono, e.outcome, dirty);
    if e.key == key && e.outcome == Learned {
      var kind := if e.kind.SniInterferenceLikely? then SniInterferenceLikely else e.kind;
      LearnKeepsBounds(s, s', key, NewWinner(e.profile, kind, e.confidence, e.now), e.now);
    } else if e.key == key && e.outcome == Nominated && !HasCandidate(s, key, e.now, e.mono) {
      NominateKeepsBounds(s, s', key, e.profile, e.now, e.mono);
    }
  }

  /** An operation that is meant to end a winner takes it away; any other only to make way. */
  lemma {:induction false} WinnerGoesExactly(
    events: seq<Event>, states: seq<State>, dirty: seq<bool>, k: nat, key: string)
    requires Run(events, states, dirty) && k < |events| && key in states[k].entries && !events[k].Loaded?
    ensures Ends(states[k], events[k], key) ==> key !in states[k + 1].entries
    ensures key !in states[k + 1].entries ==>
      Ends(states[k], events[k], key) || MakesWay(states[k], events[k], states[k + 1], key)
    ensures key in states[k + 1].entries && !Learns(events[k], key) ==>
      states[k + 1].entries[key].winner.profile == states[k].entries[key].winner.profile
  {
    var s, e, s' := states[k], events[k], states[k + 1];
    RunKeepsBounds(events, states, dirty, k);
    FailuresFit(events, states, dirty, k, key);
    assert StepAt(events, states, dirty, k);
    if e.Remembered? {
      if !Ends(s, e, key) { VerdictTakes(s, e, s', dirty[k], key); }
    } else if e.SeenHealthy? {
      HealthyKeepsBounds(s, s', e.key, e.mono, dirty[k]);
    }
  }

  // ---- forgetting a host ----

  /** Winner and nomination of the key are the same, or there is none. */
  predicate SameAbout(s: State, s': State, key: string) {
    && (key in s.entries <==> key in s'.entries) && (key in s.entries ==> s.entries[key] == s'.entries[key])
    && (key in s.candidates <==> key in s'.candidates)
    && (key in s.candidates ==> s.candidates[key] == s'.candidates[key])
  }

  lemma {:induction false} SuffixOfKey(network: string, host: string)
    ensures EndsWith(ScopeKey(network, host), "|" + NormalizeHost(host))
  {
    var front := if network == "" then DEFAULT_NETWORK else network;
    var rest := "|" + NormalizeHost(host);
    assert front + "|" + NormalizeHost(host) == front + rest;
    assert (front + rest)[|front|..] == rest;
  }

  predicate IsDotted(host: string) {
    '|' !in host
  }

  lemma {:induction false} NormalHasNoBar(host: string)
    requires IsDotted(host)
    ensures IsDotted(NormalizeHost(host))
  {
    var s := WithoutTrailingDots(host);
    NoDotsAdded(host);
    forall i | 0 <= i < |s| ensures NormalizeHost(host)[i] != '|' { assert s[i] in host; }
  }

  lemma {:induction false} NoDotsAdded(host: string)
    ensures |WithoutTrailingDots(host)| <= |host| && host[..|WithoutTrailingDots(host)|] == WithoutTrailingDots(host)
    decreases |host|
  {
    if |host| > 0 && host[|host| - 1] == '.' { NoDotsAdded(host[..|host| - 1]); }
  }

  lemma {:induction false} BarBehind(text: string, p: nat, q: nat)
    requires p < |text| && q < |text| && text[q] == '|'
    ensures p < q ==> '|' in text[p + 1..]
  {
    if p < q { assert text[p + 1..][q - p - 1] == '|'; }
  }

  lemma {:induction false} SuffixTellsHost(network: string, a: string, b: string)
    requires IsDotted(a) && IsDotted(b) && EndsWith(ScopeKey(network, a), "|" + NormalizeHost(b))
    ensures NormalizeHost(a) == NormalizeHost(b)
  {
    NormalHasNoBar(a);
    NormalHasNoBar(b);
    var front := if network == "" then DEFAULT_NETWORK else network;
    var x, y, key := NormalizeHost(a), NormalizeHost(b), ScopeKey(network, a);
    var bar := |key| - |y| - 1;
    assert key[bar..] == "|" + y && key[bar] == '|' && key[bar + 1..] == y;
    assert key[|front| + 1..] == x && key[|front|] == '|';
    BarBehind(key, bar, |front|);
    BarBehind(key, |front|, bar);
  }

  /** Forgetting a host forgets it on every network, and no other host. */
  lemma {:induction false} ForgottenExactly(
    events: seq<Event>, states: seq<State>, dirty: seq<bool>, k: nat, host: string, network: string, other: string)
    requires Run(events, states, dirty) && k < |events| && events[k] == HostForgotten("|" + NormalizeHost(host))
    ensures ScopeKey(network, host) !in states[k + 1].entries && ScopeKey(network, host) !in states[k + 1].candidates
    ensures IsDotted(host) && IsDotted(other) && NormalizeHost(other) != NormalizeHost(host) ==>
      var key := ScopeKey(network, other);
      SameAbout(states[k], states[k + 1], key)
    ensures states[k + 1].healthyAt == states[k].healthyAt
  {
    assert StepAt(events, states, dirty, k);
    SuffixOfKey(network, host);
    if IsDotted(host) && IsDotted(other) && EndsWith(ScopeKey(network, other), "|" + NormalizeHost(host)) {
      SuffixTellsHost(network, other, host);
    }
  }
}
